/**
The bookkeeping of marked regions, apart from their text: which start marker each end marker
closes. `Scan` is the one-pass machine of cmd/sync/markers.go; `Matches` says, without any
machine, which set of regions a sequence of markers denotes.
*/
module Spans {
  datatype Problem = NeedsTopic | InvalidTopic(arg: string) | UnknownMarker(verb: string)

  // One line as a marker: End("") is a bare end.
  datatype Marker =
    | Content
    | Start(topic: string)
    | End(topic: string)
    | Malformed(problem: Problem)

  // Line numbers in errors count from 1.
  datatype ExtractError =
    | BadMarker(line: nat, problem: Problem)
    | DuplicateTopic(line: nat, topic: string)
    | UnmatchedEnd(line: nat)
    | NeverClosed(topic: string)

  datatype Pending = Pending(topic: string, start: nat)
  datatype Span = Span(topic: string, start: nat, end: nat)

  datatype ScanState =
    | Scanning(open: seq<Pending>, closed: seq<Span>, seen: set<string>)
    | Failed(error: ExtractError)

  function LastIndexOf(open: seq<Pending>, topic: string): (j: int)
    ensures -1 <= j < |open|
    ensures j >= 0 ==> open[j].topic == topic
    ensures forall k :: j < k < |open| ==> open[k].topic != topic
  {
    if open == [] then -1
    else if open[|open| - 1].topic == topic then |open| - 1
    else LastIndexOf(open[..|open| - 1], topic)
  }

  // The open region an end marker closes, or -1
  function ClosedBy(open: seq<Pending>, topic: string): (j: int)
    ensures -1 <= j < |open|
  {
    if topic == "" then |open| - 1 else LastIndexOf(open, topic)
  }

  function RemoveAt<T>(s: seq<T>, i: nat): (r: seq<T>)
    requires i < |s|
    ensures |r| == |s| - 1
    ensures forall k :: 0 <= k < |r| ==> r[k] == if k < i then s[k] else s[k + 1]
  {
    s[..i] + s[i + 1..]
  }

  function Step(st: ScanState, i: nat, m: Marker): ScanState {
    if st.Failed? then st else
    match m
    case Content => st
    case Malformed(problem) => Failed(BadMarker(i + 1, problem))
    case Start(topic) =>
      if topic in st.seen then Failed(DuplicateTopic(i + 1, topic))
      else Scanning(st.open + [Pending(topic, i)], st.closed, st.seen + {topic})
    case End(topic) =>
      var j := ClosedBy(st.open, topic);
      if j < 0 then Failed(UnmatchedEnd(i + 1))
      else
        var o := st.open[j];
        Scanning(RemoveAt(st.open, j), st.closed + [Span(o.topic, o.start, i)], st.seen)
  }

  function Scan(ms: seq<Marker>): ScanState {
    if ms == [] then Scanning([], [], {})
    else Step(Scan(ms[..|ms| - 1]), |ms| - 1, ms[|ms| - 1])
  }

  lemma {:induction false} ScanSnoc(ms: seq<Marker>, i: nat)
    requires i < |ms|
    ensures Scan(ms[..i + 1]) == Step(Scan(ms[..i]), i, ms[i])
  {
    assert ms[..i + 1][..i] == ms[..i];
  }

  lemma {:induction false} FailedStays(ms: seq<Marker>, i: nat)
    requires i <= |ms| && Scan(ms[..i]).Failed?
    ensures Scan(ms) == Scan(ms[..i])
    decreases |ms|
  {
    if i == |ms| {
      assert ms[..i] == ms;
    } else {
      assert ms[..|ms| - 1][..i] == ms[..i];
      FailedStays(ms[..|ms| - 1], i);
    }
  }

  // ---------- What the regions are ----------

  predicate IsSpanOf(ms: seq<Marker>, c: Span) {
    && c.start < c.end < |ms|
    && ms[c.start] == Start(c.topic)
    && (ms[c.end] == End("") || ms[c.end] == End(c.topic))
  }

  predicate StartsAt(spans: seq<Span>, i: int) {
    exists c <- spans :: c.start == i
  }

  predicate EndsAt(spans: seq<Span>, i: int) {
    exists c <- spans :: c.end == i
  }

  predicate OpensAt(open: seq<Pending>, i: int) {
    exists o <- open :: o.start == i
  }

  predicate Crosses(c: Span, d: Span) {
    c.start < d.start < c.end < d.end
  }

  // The regions a marker sequence denotes, in closing order: every start and every end marker
  // belongs to one region, topics are distinct, and a bare end closes the youngest open region.
  predicate Matches(ms: seq<Marker>, spans: seq<Span>) {
    && (forall c <- spans :: IsSpanOf(ms, c))
    && (forall j, k :: 0 <= j < k < |spans| ==> spans[j].end < spans[k].end)
    && (forall j, k :: 0 <= j < k < |spans| ==> spans[j].topic != spans[k].topic)
    && (forall i :: 0 <= i < |ms| ==> !ms[i].Malformed?)
    && (forall i {:trigger StartsAt(spans, i)} :: 0 <= i < |ms| && ms[i].Start? ==> StartsAt(spans, i))
    && (forall i {:trigger EndsAt(spans, i)} :: 0 <= i < |ms| && ms[i].End? ==> EndsAt(spans, i))
    && (forall c <- spans, d <- spans {:trigger Crosses(c, d)} :: ms[c.end] == End("") ==> !Crosses(c, d))
  }

  // ---------- The machine's invariant ----------

  ghost predicate Placed(ms: seq<Marker>, st: ScanState)
    requires st.Scanning?
  {
    && (forall c <- st.closed :: IsSpanOf(ms, c))
    && (forall o <- st.open :: o.start < |ms| && ms[o.start] == Start(o.topic))
  }

  ghost predicate Ordered(st: ScanState)
    requires st.Scanning?
  {
    && (forall j, k :: 0 <= j < k < |st.closed| ==> st.closed[j].end < st.closed[k].end)
    && (forall j, k :: 0 <= j < k < |st.open| ==> st.open[j].start < st.open[k].start)
  }

  // Open topics are distinct, closed topics are distinct, no topic is both, and together they
  // are the topics seen.
  ghost predicate TopicsOnce(st: ScanState)
    requires st.Scanning?
  {
    && (forall j, k :: 0 <= j < k < |st.open| ==> st.open[j].topic != st.open[k].topic)
    && (forall j, k :: 0 <= j < k < |st.closed| ==> st.closed[j].topic != st.closed[k].topic)
    && (forall o <- st.open, c <- st.closed :: o.topic != c.topic)
    && (forall t :: t in st.seen <==> (exists o <- st.open :: o.topic == t) || (exists c <- st.closed :: c.topic == t))
  }

  ghost predicate Covered(ms: seq<Marker>, st: ScanState)
    requires st.Scanning?
  {
    && (forall i :: 0 <= i < |ms| ==> !ms[i].Malformed?)
    && (forall i {:trigger StartsAt(st.closed, i)} :: 0 <= i < |ms| && ms[i].Start? ==>
          OpensAt(st.open, i) || StartsAt(st.closed, i))
    && (forall i {:trigger EndsAt(st.closed, i)} :: 0 <= i < |ms| && ms[i].End? ==> EndsAt(st.closed, i))
  }

  ghost predicate YoungestFirst(ms: seq<Marker>, st: ScanState)
    requires st.Scanning? && Placed(ms, st)
  {
    forall c <- st.closed :: ms[c.end] == End("") ==>
      && (forall d <- st.closed {:trigger Crosses(c, d)} :: !Crosses(c, d))
      && (forall o <- st.open :: !(c.start < o.start < c.end))
  }

  ghost predicate Inv(ms: seq<Marker>, st: ScanState) {
    st.Scanning? ==>
      && Placed(ms, st)
      && Ordered(st)
      && TopicsOnce(st)
      && Covered(ms, st)
      && YoungestFirst(ms, st)
  }

  lemma {:induction false} InvStart(ms: seq<Marker>, st: ScanState, topic: string)
    requires st.Scanning? && Inv(ms, st) && topic !in st.seen
    ensures Inv(ms + [Start(topic)], Step(st, |ms|, Start(topic)))
  {
    var ms', st' := ms + [Start(topic)], Step(st, |ms|, Start(topic));
    var o := Pending(topic, |ms|);
    assert st'.open == st.open + [o] && st'.closed == st.closed;
    assert forall p :: p in st'.open <==> p in st.open || p == o;
    TopicsAfterStart(st, o);
    CoveredAfterStart(ms, st, o);
    hide TopicsOnce, Covered, Step;
    assert Placed(ms', st');
  }

  lemma {:induction false} TopicsAfterStart(st: ScanState, o: Pending)
    requires st.Scanning? && TopicsOnce(st) && o.topic !in st.seen
    ensures TopicsOnce(Scanning(st.open + [o], st.closed, st.seen + {o.topic}))
  {
    assert forall p :: p in st.open + [o] <==> p in st.open || p == o;
    assert forall k :: 0 <= k < |st.open| ==> st.open[k] in st.open;
  }

  lemma {:induction false} CoveredAfterStart(ms: seq<Marker>, st: ScanState, o: Pending)
    requires st.Scanning? && Covered(ms, st) && o.start == |ms|
    ensures Covered(ms + [Start(o.topic)], Scanning(st.open + [o], st.closed, st.seen + {o.topic}))
  {
    var ms', open' := ms + [Start(o.topic)], st.open + [o];
    assert forall p :: p in open' <==> p in st.open || p == o;
    forall i | 0 <= i < |ms'| && ms'[i].Start?
      ensures OpensAt(open', i) || StartsAt(st.closed, i)
    {
      assert i == o.start || StartsAt(st.closed, i) || OpensAt(st.open, i);
    }
    forall i | 0 <= i < |ms'| && ms'[i].End?
      ensures EndsAt(st.closed, i)
    {
      assert ms[i] == ms'[i];
    }
  }

  lemma {:induction false} InvContent(ms: seq<Marker>, st: ScanState)
    requires st.Scanning? && Inv(ms, st)
    ensures Inv(ms + [Content], st)
  {
    assert forall i :: 0 <= i < |ms| ==> (ms + [Content])[i] == ms[i];
  }

  lemma {:induction false} RemoveAtMembers(open: seq<Pending>, j: nat)
    requires j < |open|
    requires forall a, b :: 0 <= a < b < |open| ==> open[a].topic != open[b].topic
    ensures forall p :: p in RemoveAt(open, j) <==> p in open && p != open[j]
    ensures forall p <- RemoveAt(open, j) :: p.topic != open[j].topic
  {
    var r := RemoveAt(open, j);
    forall p | p in open && p != open[j]
      ensures p in r
    {
      var k :| 0 <= k < |open| && open[k] == p;
      assert r[if k < j then k else k - 1] == p;
    }
    forall p | p in r
      ensures p in open && p.topic != open[j].topic
    {
      var k :| 0 <= k < |r| && r[k] == p;
      assert open[if k < j then k else k + 1] == p;
    }
  }

  lemma {:induction false} InvEnd(ms: seq<Marker>, st: ScanState, topic: string)
    requires st.Scanning? && Inv(ms, st) && ClosedBy(st.open, topic) >= 0
    ensures Inv(ms + [End(topic)], Step(st, |ms|, End(topic)))
  {
    var ms', st' := ms + [End(topic)], Step(st, |ms|, End(topic));
    var j := ClosedBy(st.open, topic);
    var o := st.open[j];
    var c := Span(o.topic, o.start, |ms|);
    assert st'.open == RemoveAt(st.open, j) && st'.closed == st.closed + [c];
    forall k | 0 <= k < |st.closed|
      ensures st.closed[k].end < c.end
    {
      assert st.closed[k] in st.closed;
    }
    assert Ordered(st');
    hide RemoveAt;
    TopicsAfterEnd(ms, st, topic, c);
    CoveredAfterEnd(ms, st, topic, c);
    PlacedAfterEnd(ms, st, topic);
    YoungestAfterEnd(ms, st, topic, c);
  }

  lemma {:induction false} TopicsAfterEnd(ms: seq<Marker>, st: ScanState, topic: string, c: Span)
    requires st.Scanning? && TopicsOnce(st)
    requires ClosedBy(st.open, topic) >= 0
    requires var o := st.open[ClosedBy(st.open, topic)]; c == Span(o.topic, o.start, |ms|)
    ensures TopicsOnce(Step(st, |ms|, End(topic)))
  {
    var st', j := Step(st, |ms|, End(topic)), ClosedBy(st.open, topic);
    RemoveAtMembers(st.open, j);
    assert st.open[j] in st.open;
    assert st'.closed == st.closed + [c];
    assert forall d :: d in st'.closed <==> d in st.closed || d == c;
    forall k | 0 <= k < |st.closed|
      ensures st.closed[k].topic != c.topic
    {
      assert st.closed[k] in st.closed;
    }
  }

  lemma {:induction false} CoveredAfterEnd(ms: seq<Marker>, st: ScanState, topic: string, c: Span)
    requires st.Scanning? && Covered(ms, st) && TopicsOnce(st)
    requires ClosedBy(st.open, topic) >= 0
    requires var o := st.open[ClosedBy(st.open, topic)]; c == Span(o.topic, o.start, |ms|)
    ensures Covered(ms + [End(topic)], Step(st, |ms|, End(topic)))
  {
    var ms', st' := ms + [End(topic)], Step(st, |ms|, End(topic));
    RemoveAtMembers(st.open, ClosedBy(st.open, topic));
    assert st'.closed == st.closed + [c];
    assert forall d :: d in st'.closed <==> d in st.closed || d == c;
    forall i | 0 <= i < |ms'| && ms'[i].Start?
      ensures OpensAt(st'.open, i) || StartsAt(st'.closed, i)
    {
      assert ms[i] == ms'[i];
      assert OpensAt(st.open, i) || StartsAt(st.closed, i);
    }
    forall i | 0 <= i < |ms'| && ms'[i].End?
      ensures EndsAt(st'.closed, i)
    {
      assert i == c.end || EndsAt(st.closed, i);
    }
  }

  lemma {:induction false} PlacedAfterEnd(ms: seq<Marker>, st: ScanState, topic: string)
    requires st.Scanning? && Placed(ms, st) && TopicsOnce(st) && ClosedBy(st.open, topic) >= 0
    ensures Placed(ms + [End(topic)], Step(st, |ms|, End(topic)))
  {
    var ms', j := ms + [End(topic)], ClosedBy(st.open, topic);
    RemoveAtMembers(st.open, j);
    assert st.open[j] in st.open;
    forall c | c in st.closed
      ensures IsSpanOf(ms', c)
    {
      assert IsSpanOf(ms, c);
    }
  }

  lemma {:induction false} YoungestAfterEnd(ms: seq<Marker>, st: ScanState, topic: string, c: Span)
    requires st.Scanning? && Placed(ms, st) && Ordered(st) && TopicsOnce(st) && YoungestFirst(ms, st)
    requires ClosedBy(st.open, topic) >= 0
    requires var o := st.open[ClosedBy(st.open, topic)]; c == Span(o.topic, o.start, |ms|)
    requires Placed(ms + [End(topic)], Step(st, |ms|, End(topic)))
    ensures YoungestFirst(ms + [End(topic)], Step(st, |ms|, End(topic)))
  {
    hide LastIndexOf;
    var ms', st' := ms + [End(topic)], Step(st, |ms|, End(topic));
    var j := ClosedBy(st.open, topic);
    RemoveAtMembers(st.open, j);
    assert st.open[j] in st.open;
    forall d | d in st'.closed && ms'[d.end] == End("")
      ensures forall e <- st'.closed {:trigger Crosses(d, e)} :: !Crosses(d, e)
      ensures forall o <- st'.open :: !(d.start < o.start < d.end)
    {
      if d == c {
        assert j == |st.open| - 1;
        assert forall e <- st.closed :: IsSpanOf(ms, e) && e.end < c.end;
      } else {
        assert d in st.closed && IsSpanOf(ms, d);
        assert forall e <- st.closed :: !Crosses(d, e);
        assert !(d.start < st.open[j].start < d.end);
      }
    }
  }

  lemma {:induction false} ScanKeepsInv(ms: seq<Marker>)
    ensures Inv(ms, Scan(ms))
  {
    if ms != [] {
      var before, m := ms[..|ms| - 1], ms[|ms| - 1];
      var st := Scan(before);
      assert ms == before + [m];
      hide Placed, Ordered, TopicsOnce, Covered, YoungestFirst;
      ScanKeepsInv(before);
      if st.Scanning? {
        match m
        case Content => InvContent(before, st);
        case Malformed(_) =>
        case Start(topic) =>
          if topic !in st.seen {
            InvStart(before, st, topic);
          }
        case End(topic) =>
          if ClosedBy(st.open, topic) >= 0 {
            InvEnd(before, st, topic);
          }
      }
    }
  }

  // ---------- The machine computes exactly the denoted regions ----------

  lemma {:induction false} ScanIsSound(ms: seq<Marker>)
    requires Scan(ms).Scanning? && Scan(ms).open == []
    ensures Matches(ms, Scan(ms).closed)
  {
    ScanKeepsInv(ms);
  }

  // The region a pending entry will become, still unclosed before line i
  predicate ComesFrom(o: Pending, spans: seq<Span>, i: nat) {
    exists c <- spans :: c.topic == o.topic && c.start == o.start && c.end >= i
  }

  // Having read i markers, the machine has closed the regions that end before line i and holds
  // open the ones that start before i and end later.
  ghost predicate Follows(spans: seq<Span>, i: nat, k: nat, st: ScanState) {
    && st.Scanning?
    && k <= |spans|
    && st.closed == spans[..k]
    && (forall j :: 0 <= j < |spans| ==> (spans[j].end < i <==> j < k))
    && (forall o <- st.open {:trigger ComesFrom(o, spans, i)} :: ComesFrom(o, spans, i))
    && (forall c <- spans {:trigger Pending(c.topic, c.start)} :: c.start < i <= c.end ==>
        Pending(c.topic, c.start) in st.open)
  }

  // Regions are told apart by their start, their end or their topic.
  lemma {:induction false} SameSpan(ms: seq<Marker>, spans: seq<Span>, c: Span, d: Span)
    requires Matches(ms, spans) && c in spans && d in spans
    requires c.start == d.start || c.end == d.end || c.topic == d.topic
    ensures c == d
  {
    assert IsSpanOf(ms, c) && IsSpanOf(ms, d);
    var x :| 0 <= x < |spans| && spans[x] == c;
    var y :| 0 <= y < |spans| && spans[y] == d;
    assert x == y;
  }

  lemma {:induction false} FollowStart(ms: seq<Marker>, spans: seq<Span>, i: nat, k: nat, st: ScanState)
    requires Matches(ms, spans) && i < |ms| && ms[i].Start?
    requires Follows(spans, i, k, st) && Inv(ms[..i], st)
    ensures Follows(spans, i + 1, k, Step(st, i, ms[i]))
  {
    assert StartsAt(spans, i);
    var r :| r in spans && r.start == i;
    assert IsSpanOf(ms, r);
    FreshTopic(ms, spans, i, k, st, r);
    var st', p := Step(st, i, ms[i]), Pending(r.topic, i);
    assert st'.open == st.open + [p];
    forall j | 0 <= j < |spans|
      ensures spans[j].end != i
    {
      assert IsSpanOf(ms, spans[j]);
    }
    forall o | o in st'.open
      ensures ComesFrom(o, spans, i + 1)
    {
      if o != p {
        assert ComesFrom(o, spans, i);
      }
    }
    forall c | c in spans && c.start < i + 1 <= c.end
      ensures Pending(c.topic, c.start) in st'.open
    {
      if c.start == i {
        SameSpan(ms, spans, c, r);
      }
    }
  }

  lemma {:induction false} FreshTopic(ms: seq<Marker>, spans: seq<Span>, i: nat, k: nat, st: ScanState, r: Span)
    requires Matches(ms, spans) && i < |ms|
    requires Follows(spans, i, k, st) && Inv(ms[..i], st)
    requires r in spans && r.start == i
    ensures r.topic !in st.seen
  {
    forall c | c in st.closed
      ensures c.topic != r.topic
    {
      assert c in spans && IsSpanOf(ms[..i], c);
      if c.topic == r.topic {
        SameSpan(ms, spans, c, r);
      }
    }
    forall o | o in st.open
      ensures o.topic != r.topic
    {
      assert ComesFrom(o, spans, i);
      var c :| c in spans && c.topic == o.topic && c.start == o.start && c.end >= i;
      if c.topic == r.topic {
        SameSpan(ms, spans, c, r);
      }
    }
  }

  lemma {:induction false} ClosesRight(ms: seq<Marker>, spans: seq<Span>, i: nat, k: nat, st: ScanState, r: Span)
    requires Matches(ms, spans) && i < |ms| && ms[i].End?
    requires Follows(spans, i, k, st) && Inv(ms[..i], st)
    requires r in spans && r.end == i
    ensures var j := ClosedBy(st.open, ms[i].topic); j >= 0 && st.open[j] == Pending(r.topic, r.start)
  {
    assert IsSpanOf(ms, r);
    assert Pending(r.topic, r.start) in st.open;
    var a :| 0 <= a < |st.open| && st.open[a] == Pending(r.topic, r.start);
    if ms[i].topic == "" {
      var last := st.open[|st.open| - 1];
      assert ComesFrom(last, spans, i);
      var d :| d in spans && d.topic == last.topic && d.start == last.start && d.end >= i;
      assert !Crosses(r, d);
      assert a <= |st.open| - 1;
      if d.end == i {
        SameSpan(ms, spans, d, r);
      }
    }
  }

  lemma {:induction false} NextClosed(ms: seq<Marker>, spans: seq<Span>, i: nat, k: nat, x: nat)
    requires forall a, b :: 0 <= a < b < |spans| ==> spans[a].end < spans[b].end
    requires k <= |spans| && forall j :: 0 <= j < |spans| ==> (spans[j].end < i <==> j < k)
    requires x < |spans| && spans[x].end == i
    ensures x == k
    ensures forall j :: 0 <= j < |spans| ==> (spans[j].end < i + 1 <==> j < k + 1)
  {
    assert spans[k].end <= spans[x].end;
  }

  lemma {:induction false} EndingAt(ms: seq<Marker>, spans: seq<Span>, i: nat) returns (x: nat)
    requires Matches(ms, spans) && i < |ms| && ms[i].End?
    ensures x < |spans| && spans[x].end == i
  {
    assert EndsAt(spans, i);
    x :| 0 <= x < |spans| && spans[x].end == i;
  }

  lemma {:induction false} FollowEnd(ms: seq<Marker>, spans: seq<Span>, i: nat, k: nat, st: ScanState)
    requires Matches(ms, spans) && i < |ms| && ms[i].End?
    requires Follows(spans, i, k, st) && Inv(ms[..i], st)
    ensures Follows(spans, i + 1, k + 1, Step(st, i, ms[i]))
  {
    var x := EndingAt(ms, spans, i);
    var r := spans[x];
    NextClosed(ms, spans, i, k, x);
    ClosesRight(ms, spans, i, k, st, r);
    FollowEndOpen(ms, spans, i, k, st, r);
    hide Matches, Inv, ClosedBy, ComesFrom;
    assert Step(st, i, ms[i]).closed == spans[..k + 1];
  }

  lemma {:induction false} FollowEndOpen(ms: seq<Marker>, spans: seq<Span>, i: nat, k: nat, st: ScanState, r: Span)
    requires Matches(ms, spans) && i < |ms| && r in spans && r.end == i
    requires Follows(spans, i, k, st) && TopicsOnce(st) && ms[i].End?
    requires var j := ClosedBy(st.open, ms[i].topic); j >= 0 && st.open[j] == Pending(r.topic, r.start)
    ensures var st' := Step(st, i, ms[i]);
      && (forall o <- st'.open {:trigger ComesFrom(o, spans, i + 1)} :: ComesFrom(o, spans, i + 1))
      && (forall c <- spans {:trigger Pending(c.topic, c.start)} :: c.start < i + 1 <= c.end ==>
          Pending(c.topic, c.start) in st'.open)
  {
    RemoveAtMembers(st.open, ClosedBy(st.open, ms[i].topic));
    var st' := Step(st, i, ms[i]);
    forall o | o in st'.open
      ensures ComesFrom(o, spans, i + 1)
    {
      assert ComesFrom(o, spans, i);
      var c :| c in spans && c.topic == o.topic && c.start == o.start && c.end >= i;
      if c.end == i {
        SameSpan(ms, spans, c, r);
      }
    }
    forall c | c in spans && c.start < i + 1 <= c.end
      ensures Pending(c.topic, c.start) in st'.open
    {
      assert IsSpanOf(ms, c);
      if c.topic == r.topic {
        SameSpan(ms, spans, c, r);
      }
    }
  }

  lemma {:induction false} ScanFollows(ms: seq<Marker>, spans: seq<Span>, i: nat) returns (k: nat)
    requires Matches(ms, spans) && i <= |ms|
    ensures Follows(spans, i, k, Scan(ms[..i]))
  {
    if i == 0 {
      k := 0;
    } else {
      hide Matches, Inv, Follows, Step;
      k := ScanFollows(ms, spans, i - 1);
      ScanSnoc(ms, i - 1);
      var st := Scan(ms[..i - 1]);
      ScanKeepsInv(ms[..i - 1]);
      match ms[i - 1]
      case Content =>
        FollowContent(ms, spans, i - 1, k, st);
      case Start(_) =>
        FollowStart(ms, spans, i - 1, k, st);
      case End(_) =>
        FollowEnd(ms, spans, i - 1, k, st);
        k := k + 1;
    }
  }

  lemma {:induction false} FollowContent(ms: seq<Marker>, spans: seq<Span>, i: nat, k: nat, st: ScanState)
    requires Matches(ms, spans) && i < |ms| && ms[i].Content?
    requires Follows(spans, i, k, st)
    ensures Follows(spans, i + 1, k, st)
  {
    forall c | c in spans
      ensures c.start != i && c.end != i
    {
      assert IsSpanOf(ms, c);
    }
    forall o | o in st.open
      ensures ComesFrom(o, spans, i + 1)
    {
      assert ComesFrom(o, spans, i);
    }
  }

  lemma {:induction false} HasMember<T>(s: seq<T>)
    ensures s != [] ==> exists x :: x in s
  {
    if s != [] {
      assert s[0] in s;
    }
  }

  lemma {:induction false} ScanIsComplete(ms: seq<Marker>, spans: seq<Span>)
    requires Matches(ms, spans)
    ensures Scan(ms).Scanning? && Scan(ms).open == [] && Scan(ms).closed == spans
  {
    var k := ScanFollows(ms, spans, |ms|);
    assert ms[..|ms|] == ms;
    var open := Scan(ms).open;
    if |spans| > 0 {
      var last := |spans| - 1;
      assert spans[last] in spans && IsSpanOf(ms, spans[last]);
      assert last < k;
    }
    assert spans[..k] == spans;
    forall c | c in spans
      ensures c.end < |ms|
    {
      assert IsSpanOf(ms, c);
    }
    assert forall o <- open :: ComesFrom(o, spans, |ms|);
    HasMember(open);
  }

  // One pass accepts exactly the marker sequences that denote regions, and finds those regions;
  // in particular a sequence denotes at most one list of regions.
  lemma {:induction false} ScanIffMatches(ms: seq<Marker>, spans: seq<Span>)
    ensures Matches(ms, spans) <==> Scan(ms).Scanning? && Scan(ms).open == [] && Scan(ms).closed == spans
  {
    if Matches(ms, spans) {
      ScanIsComplete(ms, spans);
    } else if Scan(ms).Scanning? && Scan(ms).open == [] {
      ScanIsSound(ms);
    }
  }
}
