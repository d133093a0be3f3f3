/**
The diagram client and its cache (internal/content/mermaid_http.go): scoping ids to the source,
and agreement of the cached answers with the uncached ones under any interleaving of calls.
*/
module MermaidCache {
  import opened Text
  import opened Checksum
  import opened Splice

  const ID_ATTR := "id=\"container\""
  const ID_REF := "#container"

  // bytes.ReplaceAll
  function ReplaceAll(s: string, w: string, with: string): string
    requires w != ""
    decreases |s|
  {
    if s == "" then ""
    else if w <= s then with + ReplaceAll(s[|w|..], w, with)
    else [s[0]] + ReplaceAll(s[1..], w, with)
  }

  function ScopedId(digest: string): string
    requires IsDigest(digest)
  {
    "mermaid-" + digest[..12]
  }

  function Rewrite(body: string, digest: string): string
    requires IsDigest(digest)
  {
    var id := ScopedId(digest);
    ReplaceAll(ReplaceAll(body, ID_ATTR, "id=\"" + id + "\""), ID_REF, "#" + id)
  }

  // ---------- No container left ----------

  // v read from position k on disagrees with the text `with`, or the other way round
  ghost predicate Clash(v: string, k: int, with: string) {
    exists t :: 0 <= k + t < |v| && 0 <= t < |with| && v[k + t] != with[t]
  }

  // An occurrence of v can neither run into nor start inside a replacement.
  ghost predicate KeepsOut(v: string, with: string) {
    && (forall k :: 1 <= k < |v| ==> Clash(v, k, with))
    && (forall p :: 0 <= p < |with| ==> Clash(with, p, v))
  }

  lemma {:induction false} ClashNotPrefix(u: string, with: string, rest: string)
    requires Clash(u, 0, with)
    ensures !(u <= with + rest)
  {
    var t :| 0 <= 0 + t < |u| && 0 <= t < |with| && u[0 + t] != with[t];
    assert (with + rest)[t] == with[t];
  }

  lemma {:induction false} PrefixIsOld(s: string, w: string, with: string, u: string)
    requires w != "" && u <= ReplaceAll(s, w, with)
    requires forall k :: 0 <= k < |u| ==> Clash(u, k, with)
    ensures u <= s
    decreases |s|
  {
    if u != "" && s != "" {
      assert Clash(u, 0, with);
      if w <= s {
        ClashNotPrefix(u, with, ReplaceAll(s[|w|..], w, with));
      } else {
        forall k | 0 <= k < |u| - 1
          ensures Clash(u[1..], k, with)
        {
          assert Clash(u, k + 1, with);
          var t :| 0 <= k + 1 + t < |u| && 0 <= t < |with| && u[k + 1 + t] != with[t];
          assert u[1..][k + t] != with[t];
        }
        PrefixIsOld(s[1..], w, with, u[1..]);
      }
    }
  }

  // Replacing leaves no occurrence of v when v is what is replaced, or was not there.
  lemma {:induction false} ReplaceAllClears(s: string, w: string, with: string, v: string)
    requires w != "" && v != "" && KeepsOut(v, with)
    requires v == w || !Occurs(s, v)
    ensures !Occurs(ReplaceAll(s, w, with), v)
    decreases |s|
  {
    var r := ReplaceAll(s, w, with);
    forall p
      ensures !At(r, p, v)
    {
      if At(r, p, v) {
        NoOccurrence(s, w, with, v, p);
      }
    }
  }

  lemma {:induction false} NoOccurrence(s: string, w: string, with: string, v: string, p: int)
    requires w != "" && v != "" && KeepsOut(v, with)
    requires At(ReplaceAll(s, w, with), p, v)
    ensures v != w && Occurs(s, v)
    decreases |s|
  {
    var r := ReplaceAll(s, w, with);
    if w <= s {
      var rest := ReplaceAll(s[|w|..], w, with);
      assert r == with + rest;
      if p < |with| {
        assert Clash(with, p, v);
        var t :| 0 <= p + t < |with| && 0 <= t < |v| && with[p + t] != v[t];
        AtChar(r, p, v, t);
      } else {
        AtPart(with, rest, "", p, v);
        assert with + rest + "" == r;
        NoOccurrence(s[|w|..], w, with, v, p - |with|);
        OccursInTail(s, |w|, v);
      }
    } else {
      var rest := ReplaceAll(s[1..], w, with);
      assert r == [s[0]] + rest;
      if p == 0 {
        StartIsOld(s, w, with, v);
      } else {
        AtTail(r, p, v);
        assert r[1..] == rest;
        NoOccurrence(s[1..], w, with, v, p - 1);
        OccursInTail(s, 1, v);
      }
    }
  }

  lemma {:induction false} OccursInTail(s: string, n: nat, v: string)
    requires n <= |s| && Occurs(s[n..], v)
    ensures Occurs(s, v)
  {
    var p :| At(s[n..], p, v);
    PartInWhole(s[..n], "", s[n..], p, v);
    assert s[..n] + "" + s[n..] == s;
  }

  lemma {:induction false} StartIsOld(s: string, w: string, with: string, v: string)
    requires s != "" && w != "" && !(w <= s) && v != "" && KeepsOut(v, with)
    requires At(ReplaceAll(s, w, with), 0, v)
    ensures v != w && Occurs(s, v)
  {
    var r := ReplaceAll(s, w, with);
    var rest := ReplaceAll(s[1..], w, with);
    assert v == r[0..|v|];
    assert v[1..] <= rest;
    forall k | 0 <= k < |v| - 1
      ensures Clash(v[1..], k, with)
    {
      assert Clash(v, k + 1, with);
      var t :| 0 <= k + 1 + t < |v| && 0 <= t < |with| && v[k + 1 + t] != with[t];
      assert v[1..][k + t] != with[t];
    }
    PrefixIsOld(s[1..], w, with, v[1..]);
    assert v[0] == s[0];
    assert v <= s;
    assert At(s, 0, v);
  }

  lemma {:induction false} AttrKeepsOut(digest: string)
    requires IsDigest(digest)
    ensures KeepsOut(ID_ATTR, "id=\"" + ScopedId(digest) + "\"")
  {
    var v, with := ID_ATTR, "id=\"" + ScopedId(digest) + "\"";
    forall k | 1 <= k < |v|
      ensures Clash(v, k, with)
    {
      var t := if k == 9 then 1 else 0;
      assert v[k + t] != with[t];
    }
    forall p | 0 <= p < |with|
      ensures Clash(with, p, v)
    {
      if p < 12 {
        var t := if p == 0 then 4 else if p == 9 then 2 else 0;
        assert with[p + t] != v[t];
      } else if p < 24 {
        assert with[p + 0] == digest[p - 12] != v[0];
      } else {
        assert with[p + 0] != v[0];
      }
    }
  }

  lemma {:induction false} RefKeepsOut(digest: string)
    requires IsDigest(digest)
    ensures KeepsOut(ID_REF, "#" + ScopedId(digest)) && KeepsOut(ID_ATTR, "#" + ScopedId(digest))
  {
    var with := "#" + ScopedId(digest);
    forall k | 1 <= k < |ID_REF|
      ensures Clash(ID_REF, k, with)
    {
      assert ID_REF[k + 0] != with[0];
    }
    forall k | 1 <= k < |ID_ATTR|
      ensures Clash(ID_ATTR, k, with)
    {
      assert ID_ATTR[k + 0] != with[0];
    }
    forall p | 0 <= p < |with|
      ensures Clash(with, p, ID_REF) && Clash(with, p, ID_ATTR)
    {
      if p < 9 {
        var t := if p == 0 then 1 else 0;
        assert with[p + t] != ID_REF[t];
        var u := if p == 6 then 2 else 0;
        assert with[p + u] != ID_ATTR[u];
      } else {
        assert with[p + 0] == digest[p - 9];
        assert with[p + 0] != ID_REF[0] && with[p + 0] != ID_ATTR[0];
      }
    }
  }

  // Whatever the sidecar answers, nothing is left named container.
  lemma {:induction false} RewriteClears(body: string, digest: string)
    requires IsDigest(digest)
    ensures !Occurs(Rewrite(body, digest), ID_ATTR)
    ensures !Occurs(Rewrite(body, digest), ID_REF)
  {
    var id := ScopedId(digest);
    var attr := "id=\"" + id + "\"";
    var first := ReplaceAll(body, ID_ATTR, attr);
    AttrKeepsOut(digest);
    ReplaceAllClears(body, ID_ATTR, attr, ID_ATTR);
    RefKeepsOut(digest);
    ReplaceAllClears(first, ID_REF, "#" + id, ID_REF);
    ReplaceAllClears(first, ID_REF, "#" + id, ID_ATTR);
  }

  // ---------- One call ----------

  // What the client gets back from the sidecar: a failure, or a body and its status
  datatype Response = TransportError | Reply(status: int, body: string)

  // At most four mebibytes of a body are read.
  const LIMIT := 4 * 1024 * 1024

  function Limited(body: string): string {
    if |body| <= LIMIT then body else body[..LIMIT]
  }

  // The diagram of a successful response, None when the call fails
  function Rendered(sum: Sum, source: string, response: Response): Option<string> {
    match response
    case TransportError => None
    case Reply(status, body) =>
      if status != 200 then None else Some(Rewrite(Limited(body), sum(source)))
  }

  // One call: a cached answer is given again and nothing changes; otherwise the answer is the
  // response's diagram, which is stored, or the failure, which is not.
  ghost predicate DoesCall(sum: Sum, before: map<string, string>, source: string, response: Response,
                           r: Option<string>, after: map<string, string>) {
    && (sum(source) in before ==> r == Some(before[sum(source)]) && after == before)
    && (sum(source) !in before ==> r == Rendered(sum, source, response))
    && (sum(source) !in before && r.Some? ==> after == before[sum(source) := r.value])
    && (r == None ==> after == before)
  }

  class KrokiMermaid {
    const sum: Sum
    var cache: map<string, string>

    constructor (sum: Sum)
      ensures this.sum == sum && cache == map[]
    {
      this.sum, cache := sum, map[];
    }

    // The response is used only when the cache has no answer.
    method RenderSVG(source: string, response: Response) returns (r: Option<string>)
      modifies this
      ensures DoesCall(sum, old(cache), source, response, r, cache)
      ensures sum(source) !in old(cache) ==> (r.Some? <==> response.Reply? && response.status == 200)
      ensures r == None ==> cache == old(cache)
    {
      var digest := sum(source);
      if digest in cache {
        return Some(cache[digest]);
      }
      match response {
        case TransportError =>
          return None;
        case Reply(status, full) =>
          var body := if |full| <= LIMIT then full else full[..LIMIT];
          if status != 200 {
            return None;
          }
          var id := ScopedId(digest);
          var svg := ReplaceAll(body, ID_ATTR, "id=\"" + id + "\"");
          svg := ReplaceAll(svg, ID_REF, "#" + id);
          cache := cache[digest := svg];
          return Some(svg);
      }
    }
  }

  // ---------- What a diagram is ----------

  // Replacing everything replaces the first occurrence and goes on behind it.
  lemma {:induction false} ReplaceAllFirst(a: string, w: string, b: string, with: string)
    requires w != "" && forall p :: At(a + w + b, p, w) ==> p >= |a|
    ensures ReplaceAll(a + w + b, w, with) == a + with + ReplaceAll(b, w, with)
    decreases |a|
  {
    var s := a + w + b;
    if a == "" {
      assert s[|w|..] == b && w <= s;
      assert "" + with + ReplaceAll(b, w, with) == with + ReplaceAll(b, w, with);
    } else {
      assert !(w <= s) by {
        assert !At(s, 0, w);
      }
      assert s[1..] == a[1..] + w + b;
      forall p | At(s[1..], p, w)
        ensures p >= |a| - 1
      {
        AtTail(s, p + 1, w);
      }
      ReplaceAllFirst(a[1..], w, b, with);
      assert [s[0]] + (a[1..] + with + ReplaceAll(b, w, with)) == a + with + ReplaceAll(b, w, with);
    }
  }

  lemma {:induction false} ReplaceAllNone(s: string, w: string, with: string)
    requires w != "" && !Occurs(s, w)
    ensures ReplaceAll(s, w, with) == s
  {
    if s != "" {
      assert !At(s, 0, w);
      forall p
        ensures !At(s[1..], p, w)
      {
        if p >= 0 {
          AtTail(s, p + 1, w);
        }
      }
      ReplaceAllNone(s[1..], w, with);
    }
  }

  ghost predicate IsScoped(svg: string) {
    !Occurs(svg, ID_ATTR) && !Occurs(svg, ID_REF)
  }

  // A response is a diagram exactly when it has status 200. One that names no container is taken
  // as it is, and of a longer one than four mebibytes only the start is read.
  lemma {:induction false} ResponseIs(sum: Sum, source: string, response: Response)
    ensures Rendered(sum, source, response).Some? <==> response.Reply? && response.status == 200
    ensures response.Reply? && response.status == 200 && |response.body| <= 4194304 && IsScoped(response.body) ==>
      Rendered(sum, source, response) == Some(response.body)
    ensures response.Reply? && response.status == 200 && |response.body| > 4194304 ==>
      Rendered(sum, source, response) == Rendered(sum, source, Reply(200, response.body[..4194304]))
  {
    if response.Reply? && response.status == 200 && |response.body| <= 4194304 && IsScoped(response.body) {
      var id := ScopedId(sum(source));
      ReplaceAllNone(response.body, ID_ATTR, "id=\"" + id + "\"");
      ReplaceAllNone(response.body, ID_REF, "#" + id);
    }
  }

  // The text occurs once, in the middle, and the other text nowhere.
  ghost predicate OnlyThere(a: string, w: string, b: string, other: string) {
    (forall p :: At(a + w + b, p, w) ==> p >= |a|) && !Occurs(b, w) && !Occurs(a + w + b, other)
  }

  // Replacing the attribute makes no reference.
  lemma {:induction false} RefKeepsOutOfAttr(digest: string)
    requires IsDigest(digest)
    ensures KeepsOut(ID_REF, "id=\"" + ScopedId(digest) + "\"")
  {
    var v, with := ID_REF, "id=\"" + ScopedId(digest) + "\"";
    forall k | 1 <= k < |v|
      ensures Clash(v, k, with)
    {
      var t := if k == 6 then 1 else 0;
      assert v[k + t] != with[t];
    }
    forall p | 0 <= p < |with|
      ensures Clash(with, p, v)
    {
      if 12 <= p < 24 {
        assert with[p + 0] == digest[p - 12] != v[0];
      } else {
        assert with[p + 0] != v[0];
      }
    }
  }

  lemma {:induction false} RenamedOnce(a: string, w: string, b: string, with: string)
    requires w != "" && (forall p :: At(a + w + b, p, w) ==> p >= |a|) && !Occurs(b, w)
    ensures ReplaceAll(a + w + b, w, with) == a + with + b
  {
    ReplaceAllFirst(a, w, b, with);
    ReplaceAllNone(b, w, with);
  }

  lemma {:induction false} RewrittenAttr(digest: string, a: string, b: string)
    requires IsDigest(digest) && OnlyThere(a, ID_ATTR, b, ID_REF)
    ensures Rewrite(a + ID_ATTR + b, digest) == a + ("id=\"" + ScopedId(digest) + "\"") + b
  {
    var attr := "id=\"" + ScopedId(digest) + "\"";
    RefKeepsOutOfAttr(digest);
    hide ReplaceAll, Occurs, At, KeepsOut, ScopedId;
    ReplaceAllClears(a + ID_ATTR + b, ID_ATTR, attr, ID_REF);
    RenamedOnce(a, ID_ATTR, b, attr);
    ReplaceAllNone(a + attr + b, ID_REF, "#" + ScopedId(digest));
  }

  lemma {:induction false} RewrittenRef(digest: string, a: string, b: string)
    requires IsDigest(digest) && OnlyThere(a, ID_REF, b, ID_ATTR)
    ensures Rewrite(a + ID_REF + b, digest) == a + ("#" + ScopedId(digest)) + b
  {
    hide ReplaceAll, Occurs, At, ScopedId;
    ReplaceAllNone(a + ID_REF + b, ID_ATTR, "id=\"" + ScopedId(digest) + "\"");
    RenamedOnce(a, ID_REF, b, "#" + ScopedId(digest));
  }

  // A container's id becomes `mermaid-` and the first twelve digits of the source's checksum, and so
  // does a reference to it; the text around them stays.
  lemma {:induction false} ContainerRenamed(sum: Sum, source: string, a: string, b: string)
    requires |a| + 14 + |b| <= 4194304
    ensures var id := "mermaid-" + sum(source)[..12];
      && (OnlyThere(a, "id=\"container\"", b, "#container") ==>
            Rendered(sum, source, Reply(200, a + "id=\"container\"" + b)) == Some(a + ("id=\"" + id + "\"") + b))
      && (OnlyThere(a, "#container", b, "id=\"container\"") ==>
            Rendered(sum, source, Reply(200, a + "#container" + b)) == Some(a + ("#" + id) + b))
  {
    assert |ID_ATTR| == 14 && |ID_REF| == 10;
    hide OnlyThere, Rewrite;
    if OnlyThere(a, ID_ATTR, b, ID_REF) {
      RewrittenAttr(sum(source), a, b);
    }
    if OnlyThere(a, ID_REF, b, ID_ATTR) {
      RewrittenRef(sum(source), a, b);
    }
  }

  // ---------- Concurrent calls ----------

  // Where a call is: the map is touched only in the two locked regions, before and after the
  // request to the sidecar.
  datatype Call =
    | Started(source: string)
    | Fetching(source: string)
    | Storing(source: string, svg: string)
    | Answered(source: string, answer: Option<string>)

  datatype System = System(cache: map<string, string>, calls: seq<Call>)

  // One step of call number t; a request to the sidecar may fail.
  datatype Event = Begin(source: string) | Lookup(t: nat) | Fetch(t: nat, ok: bool) | Store(t: nat)

  // Events act on the system given what rendering each source without a cache gives.
  // The system after an event; an event that is not possible changes nothing.
  function Step(sum: Sum, uncached: string -> string, s: System, e: Event): System {
    match e
    case Begin(source) => s.(calls := s.calls + [Started(source)])
    case Lookup(t) =>
      if t < |s.calls| && s.calls[t].Started? then
        var source := s.calls[t].source;
        s.(calls := s.calls[t := if sum(source) in s.cache then Answered(source, Some(s.cache[sum(source)]))
                            else Fetching(source)])
      else s
    case Fetch(t, ok) =>
      if t < |s.calls| && s.calls[t].Fetching? then
        var source := s.calls[t].source;
        s.(calls := s.calls[t := if ok then Storing(source, uncached(source)) else Answered(source, None)])
      else s
    case Store(t) =>
      if t < |s.calls| && s.calls[t].Storing? then
        var Storing(source, svg) := s.calls[t];
        System(s.cache[sum(source) := svg], s.calls[t := Answered(source, Some(svg))])
      else s
  }

  function Run(sum: Sum, uncached: string -> string, events: seq<Event>): System {
    if events == [] then System(map[], [])
    else Step(sum, uncached, Run(sum, uncached, events[..|events| - 1]), events[|events| - 1])
  }

  // How far a call has come
  function Phase(c: Call): nat {
    match c
    case Started(_) => 0
    case Fetching(_) => 1
    case Storing(_, _) => 2
    case Answered(_, _) => 3
  }

  // A step leaves a call where it is or moves it on, and never changes what it asks for.
  lemma {:induction false} CallsMoveOn(sum: Sum, uncached: string -> string, s: System, e: Event, t: nat)
    requires t < |s.calls|
    ensures var calls := Step(sum, uncached, s, e).calls;
      && t < |calls| && calls[t].source == s.calls[t].source
      && (calls[t] == s.calls[t] || Phase(calls[t]) > Phase(s.calls[t]))
  {
    if !e.Begin? && e.t == t {
      OwnStep(sum, uncached, s, e);
    } else {
      OthersWait(sum, uncached, s, e, t);
    }
    hide Step;
  }

  lemma {:induction false} OwnStep(sum: Sum, uncached: string -> string, s: System, e: Event)
    requires !e.Begin? && e.t < |s.calls|
    ensures var calls := Step(sum, uncached, s, e).calls;
      && |calls| == |s.calls| && calls[e.t].source == s.calls[e.t].source
      && (calls[e.t] == s.calls[e.t] || Phase(calls[e.t]) > Phase(s.calls[e.t]))
  {
    var c := s.calls[e.t];
    match c
    case Started(source) => assert e.Lookup? || Step(sum, uncached, s, e) == s;
    case Fetching(source) => assert e.Fetch? || Step(sum, uncached, s, e) == s;
    case Storing(source, svg) => assert e.Store? || Step(sum, uncached, s, e) == s;
    case Answered(source, answer) => assert Step(sum, uncached, s, e) == s;
  }

  lemma {:induction false} OthersWait(sum: Sum, uncached: string -> string, s: System, e: Event, t: nat)
    requires t < |s.calls| && (e.Begin? || e.t != t)
    ensures var calls := Step(sum, uncached, s, e).calls; t < |calls| && calls[t] == s.calls[t]
  {
  }

  lemma {:induction false} RunOneMore(sum: Sum, uncached: string -> string, events: seq<Event>, e: Event)
    ensures Run(sum, uncached, events + [e]) == Step(sum, uncached, Run(sum, uncached, events), e)
  {
    hide Step;
    assert (events + [e])[..|events|] == events;
  }

  // A call is answered once: whatever happens later, its answer stays.
  lemma {:induction false} AnswersAreFinal(sum: Sum, uncached: string -> string, events: seq<Event>, later: seq<Event>,
                                           t: nat)
    requires t < |Run(sum, uncached, events).calls| && Run(sum, uncached, events).calls[t].Answered?
    ensures var calls := Run(sum, uncached, events + later).calls;
      t < |calls| && calls[t] == Run(sum, uncached, events).calls[t]
    decreases |later|
  {
    hide Step, Run;
    if later == [] {
      assert events + later == events;
    } else {
      var k := |later| - 1;
      AnswersAreFinal(sum, uncached, events, later[..k], t);
      RunOneMore(sum, uncached, events + later[..k], later[k]);
      assert events + later[..k] + [later[k]] == events + later;
      CallsMoveOn(sum, uncached, Run(sum, uncached, events + later[..k]), later[k], t);
    }
  }

  // The sources asked for in a run
  ghost predicate Asks(events: seq<Event>, source: string) {
    Begin(source) in events
  }

  // Every cached diagram is the uncached answer for some source asked for, under its checksum,
  // and every successful answer is one of those.
  ghost predicate Sound(sum: Sum, uncached: string -> string, events: seq<Event>, s: System) {
    && (forall h <- s.cache :: CachedFor(sum, uncached, events, h, s.cache[h]))
    && (forall c <- s.calls :: Asks(events, c.source) && CallSound(sum, uncached, events, c))
  }

  ghost predicate CachedFor(sum: Sum, uncached: string -> string, events: seq<Event>, h: string, svg: string) {
    exists source :: Asks(events, source) && sum(source) == h && svg == uncached(source)
  }

  ghost predicate CallSound(sum: Sum, uncached: string -> string, events: seq<Event>, c: Call) {
    match c
    case Storing(source, svg) => svg == uncached(source)
    case Answered(source, Some(svg)) => CachedFor(sum, uncached, events, sum(source), svg)
    case _ => true
  }

  lemma {:induction false} MoreEvents(sum: Sum, uncached: string -> string, events: seq<Event>, e: Event, s: System)
    requires Sound(sum, uncached, events, s)
    ensures Sound(sum, uncached, events + [e], s)
  {
    forall h, svg | CachedFor(sum, uncached, events, h, svg)
      ensures CachedFor(sum, uncached, events + [e], h, svg)
    {
      var source :| Asks(events, source) && sum(source) == h && svg == uncached(source);
      assert Asks(events + [e], source);
    }
  }

  lemma {:induction false} CallMoves(sum: Sum, uncached: string -> string, events: seq<Event>, s: System, t: nat,
                                     c: Call)
    requires Sound(sum, uncached, events, s) && t < |s.calls|
    requires c.source == s.calls[t].source && CallSound(sum, uncached, events, c)
    ensures Sound(sum, uncached, events, s.(calls := s.calls[t := c]))
  {
    assert s.calls[t] in s.calls;
    forall d | d in s.calls[t := c]
      ensures d == c || d in s.calls
    {
    }
  }

  lemma {:induction false} CacheGrows(sum: Sum, uncached: string -> string, events: seq<Event>, s: System,
                                      source: string)
    requires Sound(sum, uncached, events, s) && Asks(events, source)
    ensures Sound(sum, uncached, events, s.(cache := s.cache[sum(source) := uncached(source)]))
  {
    hide Asks;
    assert CachedFor(sum, uncached, events, sum(source), uncached(source));
  }

  lemma {:induction false} LookupSound(sum: Sum, uncached: string -> string, events: seq<Event>, s: System,
                                       source: string)
    requires Sound(sum, uncached, events, s) && sum(source) in s.cache
    ensures CallSound(sum, uncached, events, Answered(source, Some(s.cache[sum(source)])))
  {
  }

  lemma {:induction false} StepSound(sum: Sum, uncached: string -> string, events: seq<Event>, s: System, e: Event)
    requires Sound(sum, uncached, events, s)
    requires e.Begin? ==> Asks(events, e.source)
    ensures Sound(sum, uncached, events, Step(sum, uncached, s, e))
  {
    if !e.Begin? && e.t < |s.calls| {
      var c := s.calls[e.t];
      assert c in s.calls && Asks(events, c.source) && CallSound(sum, uncached, events, c);
      hide Sound, Asks, CachedFor;
      match e
      case Lookup(t) =>
        if c.Started? {
          if sum(c.source) in s.cache {
            LookupSound(sum, uncached, events, s, c.source);
          }
          CallMoves(sum, uncached, events, s, t, Step(sum, uncached, s, e).calls[t]);
        }
      case Fetch(t, ok) =>
        if c.Fetching? {
          CallMoves(sum, uncached, events, s, t, Step(sum, uncached, s, e).calls[t]);
        }
      case Store(t) =>
        if c.Storing? {
          CacheGrows(sum, uncached, events, s, c.source);
          var s' := s.(cache := s.cache[sum(c.source) := c.svg]);
          LookupSound(sum, uncached, events, s', c.source);
          CallMoves(sum, uncached, events, s', t, Answered(c.source, Some(c.svg)));
        }
    }
  }

  lemma {:induction false} RunSound(sum: Sum, uncached: string -> string, events: seq<Event>)
    ensures Sound(sum, uncached, events, Run(sum, uncached, events))
  {
    if events != [] {
      var before, e := events[..|events| - 1], events[|events| - 1];
      assert events == before + [e];
      RunSound(sum, uncached, before);
      MoreEvents(sum, uncached, before, e, Run(sum, uncached, before));
      StepSound(sum, uncached, events, Run(sum, uncached, before), e);
    }
  }

  // Every successful answer of the run is what rendering without a cache gives.
  ghost predicate Agrees(sum: Sum, uncached: string -> string, events: seq<Event>) {
    forall c <- Run(sum, uncached, events).calls :: c.Answered? && c.answer.Some? ==>
      c.answer.value == uncached(c.source)
  }

  // Sources with the same checksum render alike.
  ghost predicate CollisionsHarmless(sum: Sum, uncached: string -> string, sources: set<string>) {
    forall s <- sources, t <- sources :: sum(s) == sum(t) ==> uncached(s) == uncached(t)
  }

  ghost predicate AsksOnly(events: seq<Event>, sources: set<string>) {
    forall source :: Asks(events, source) ==> source in sources
  }

  lemma {:induction false} HarmlessAgrees(sum: Sum, uncached: string -> string, sources: set<string>,
                                          events: seq<Event>)
    requires CollisionsHarmless(sum, uncached, sources) && AsksOnly(events, sources)
    ensures Agrees(sum, uncached, events)
  {
    RunSound(sum, uncached, events);
    forall c | c in Run(sum, uncached, events).calls && c.Answered? && c.answer.Some?
      ensures c.answer.value == uncached(c.source)
    {
      assert CallSound(sum, uncached, events, c) && Asks(events, c.source);
    }
  }

  // A call that finishes before another begins
  function TwoCalls(s: string, t: string): seq<Event> {
    [Begin(s), Lookup(0), Fetch(0, true), Store(0), Begin(t), Lookup(1)]
  }

  // The system after the steps of one call with no others between
  function CallSteps(sum: Sum, uncached: string -> string, x: System, source: string, ok: bool): System {
    var n := |x.calls|;
    var begun := Step(sum, uncached, x, Begin(source));
    var looked := Step(sum, uncached, begun, Lookup(n));
    var fetched := Step(sum, uncached, looked, Fetch(n, ok));
    Step(sum, uncached, fetched, Store(n))
  }

  lemma {:induction false} CallStepsAre(sum: Sum, uncached: string -> string, x: System, source: string, ok: bool)
    ensures var hit := sum(source) in x.cache;
      var answer := if hit then Some(x.cache[sum(source)]) else if ok then Some(uncached(source)) else None;
      CallSteps(sum, uncached, x, source, ok) ==
        System(if !hit && ok then x.cache[sum(source) := uncached(source)]
               else x.cache, x.calls + [Answered(source, answer)])
  {
    var n := |x.calls|;
    var begun := Step(sum, uncached, x, Begin(source));
    assert begun.calls == x.calls + [Started(source)];
    var looked := Step(sum, uncached, begun, Lookup(n));
    if sum(source) in x.cache {
      assert looked.calls == x.calls + [Answered(source, Some(x.cache[sum(source)]))];
    } else {
      assert looked.calls == x.calls + [Fetching(source)];
      var fetched := Step(sum, uncached, looked, Fetch(n, ok));
      assert fetched.calls == x.calls + [if ok then Storing(source, uncached(source)) else Answered(source, None)];
    }
  }

  // A call that is not interrupted does what RenderSVG does, whether it finds a cached answer, is
  // answered by the sidecar, or fails.
  lemma {:induction false} UninterruptedCall(sum: Sum, uncached: string -> string, x: System, source: string,
                                             response: Response)
    returns (r: Option<string>)
    requires Rendered(sum, source, response).Some? ==> Rendered(sum, source, response).value == uncached(source)
    ensures var after := CallSteps(sum, uncached, x, source, Rendered(sum, source, response).Some?);
      after.calls == x.calls + [Answered(source, r)] && DoesCall(sum, x.cache, source, response, r, after.cache)
  {
    var ok := Rendered(sum, source, response).Some?;
    hide Step, CallSteps, Rendered;
    CallStepsAre(sum, uncached, x, source, ok);
    r := if sum(source) in x.cache then Some(x.cache[sum(source)]) else if ok then Some(uncached(source)) else None;
  }

  lemma {:induction false} FirstCallStores(sum: Sum, uncached: string -> string, s: string, t: string)
    ensures Run(sum, uncached, TwoCalls(s, t)[..4]) ==
      System(map[sum(s) := uncached(s)], [Answered(s, Some(uncached(s)))])
  {
    hide Run, Step;
    RunFour(sum, uncached, TwoCalls(s, t));
    CallStepsAre(sum, uncached, System(map[], []), s, true);
  }

  lemma {:induction false} RunFour(sum: Sum, uncached: string -> string, e: seq<Event>)
    requires |e| >= 4
    ensures Run(sum, uncached, e[..4]) ==
      Step(sum, uncached,
           Step(sum, uncached, Step(sum, uncached, Step(sum, uncached, System(map[], []), e[0]), e[1]), e[2]), e[3])
  {
    hide Step;
    assert Run(sum, uncached, e[..0]) == System(map[], []);
    RunSnoc(sum, uncached, e, 0);
    RunSnoc(sum, uncached, e, 1);
    RunSnoc(sum, uncached, e, 2);
    RunSnoc(sum, uncached, e, 3);
  }

  lemma {:induction false} SecondCallHits(sum: Sum, uncached: string -> string, s: string, t: string)
    requires sum(s) == sum(t)
    ensures Answered(t, Some(uncached(s))) in Run(sum, uncached, TwoCalls(s, t)).calls
  {
    hide Run;
    var e := TwoCalls(s, t);
    FirstCallStores(sum, uncached, s, t);
    var first := Run(sum, uncached, e[..4]);
    RunSnoc(sum, uncached, e, 4);
    RunSnoc(sum, uncached, e, 5);
    assert e[..6] == e;
    HitAfter(sum, uncached, first, t);
  }

  // A call that finds an answer in the cache
  lemma {:induction false} HitAfter(sum: Sum, uncached: string -> string, x: System, t: string)
    requires sum(t) in x.cache
    ensures Answered(t, Some(x.cache[sum(t)])) in
      Step(sum, uncached, Step(sum, uncached, x, Begin(t)), Lookup(|x.calls|)).calls
  {
    var n := |x.calls|;
    assert Step(sum, uncached, x, Begin(t)).calls[n] == Started(t);
    assert Step(sum, uncached, Step(sum, uncached, x, Begin(t)), Lookup(n)).calls[n] ==
      Answered(t, Some(x.cache[sum(t)]));
  }

  lemma {:induction false} RunSnoc(sum: Sum, uncached: string -> string, events: seq<Event>, i: nat)
    requires i < |events|
    ensures Run(sum, uncached, events[..i + 1]) == Step(sum, uncached, Run(sum, uncached, events[..i]), events[i])
  {
    assert events[..i + 1][..i] == events[..i];
  }

  // For a set of sources: every interleaving of calls for them agrees with the uncached
  // renderer, exactly when those of them that share a checksum render alike.
  lemma {:induction false} AgreementIffHarmless(sum: Sum, uncached: string -> string, sources: set<string>)
    ensures (forall events | AsksOnly(events, sources) :: Agrees(sum, uncached, events)) <==>
      CollisionsHarmless(sum, uncached, sources)
  {
    hide AsksOnly, Agrees, TwoCalls;
    if CollisionsHarmless(sum, uncached, sources) {
      forall events | AsksOnly(events, sources)
        ensures Agrees(sum, uncached, events)
      {
        HarmlessAgrees(sum, uncached, sources, events);
      }
    } else {
      var s, t :| s in sources && t in sources && sum(s) == sum(t) && uncached(s) != uncached(t);
      TwoCallsDisagree(sum, uncached, s, t);
      AsksTwo(s, t, sources);
    }
  }

  lemma {:induction false} AsksTwo(s: string, t: string, sources: set<string>)
    requires s in sources && t in sources
    ensures AsksOnly(TwoCalls(s, t), sources)
  {
  }

  lemma {:induction false} TwoCallsDisagree(sum: Sum, uncached: string -> string, s: string, t: string)
    requires sum(s) == sum(t) && uncached(s) != uncached(t)
    ensures !Agrees(sum, uncached, TwoCalls(s, t))
  {
    hide Run, TwoCalls;
    SecondCallHits(sum, uncached, s, t);
  }

  // Rendering without a cache: the sidecar's answer, scoped to the source
  ghost function Uncached(sum: Sum, sidecar: string -> string, source: string): (r: string)
    ensures IsScoped(r)
  {
    RewriteClears(Limited(sidecar(source)), sum(source));
    Rewrite(Limited(sidecar(source)), sum(source))
  }

  // Errors are never cached: what the cache holds is always the uncached answer for some source
  // asked for. If that is always scoped, so is every answer, collisions or not.
  lemma {:induction false} AnswersComeFromRenders(sum: Sum, uncached: string -> string, events: seq<Event>)
    requires forall source :: IsScoped(uncached(source))
    ensures var s := Run(sum, uncached, events);
      && (forall h <- s.cache :: CachedFor(sum, uncached, events, h, s.cache[h]))
      && (forall c <- s.calls :: c.Answered? && c.answer.Some? ==> IsScoped(c.answer.value))
  {
    RunSound(sum, uncached, events);
    forall c | c in Run(sum, uncached, events).calls && c.Answered? && c.answer.Some?
      ensures IsScoped(c.answer.value)
    {
      assert CallSound(sum, uncached, events, c);
    }
  }

  // Whatever the sidecar is, no diagram returned in any run is left named container.
  lemma {:induction false} AnswersAreScoped(sum: Sum, sidecar: string -> string, uncached: string -> string,
                                            events: seq<Event>, c: Call)
    requires forall source :: uncached(source) == Uncached(sum, sidecar, source)
    requires c in Run(sum, uncached, events).calls && c.Answered? && c.answer.Some?
    ensures IsScoped(c.answer.value)
  {
    AnswersComeFromRenders(sum, uncached, events);
  }
}
