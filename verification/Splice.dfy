/**
Splicing rendered diagrams into sanitized HTML (internal/content/pipeline.go): placeholder tokens,
the sequential replacement loop, and when it is one simultaneous substitution.
*/
module Splice {
  import opened Text
  import opened Order

  datatype Slot = Slot(token: string, svg: string)

  const FIGURE_OPEN := "<scroll-box><figure class=\"fig\">"
  const FIGURE_CLOSE := "</figure></scroll-box>"

  function Figure(svg: string): string {
    FIGURE_OPEN + svg + FIGURE_CLOSE
  }

  function Wrapped(token: string): string {
    "<p>" + token + "</p>"
  }

  // ---------- Substrings ----------

  predicate At(s: string, p: int, w: string) {
    0 <= p && p + |w| <= |s| && s[p..p + |w|] == w
  }

  ghost predicate Occurs(s: string, w: string) {
    exists p :: At(s, p, w)
  }

  // bytes.Index
  function Index(s: string, w: string): (i: int)
    ensures -1 <= i <= |s|
  {
    if w <= s then 0
    else if s == "" then -1
    else
      var i := Index(s[1..], w);
      if i < 0 then -1 else i + 1
  }

  // bytes.Replace with a count of one
  function ReplaceFirst(s: string, w: string, with: string): string {
    var i := Index(s, w);
    if i < 0 || i + |w| > |s| then s else s[..i] + with + s[i + |w|..]
  }

  lemma {:induction false} AtTail(s: string, p: int, w: string)
    requires s != ""
    ensures p >= 1 ==> (At(s, p, w) <==> At(s[1..], p - 1, w))
  {
    if At(s, p, w) || At(s[1..], p - 1, w) {
      if 1 <= p && p + |w| <= |s| {
        assert s[1..][p - 1..p - 1 + |w|] == s[p..p + |w|];
      }
    }
  }

  lemma {:induction false} IndexFinds(s: string, w: string)
    ensures Index(s, w) >= 0 ==> At(s, Index(s, w), w)
    ensures Index(s, w) < 0 ==> !Occurs(s, w)
  {
    if !(w <= s) && s != "" {
      IndexFinds(s[1..], w);
      var i := Index(s[1..], w);
      AtTail(s, i + 1, w);
      if i < 0 {
        forall p
          ensures !At(s, p, w)
        {
          if p >= 1 {
            AtTail(s, p, w);
          }
        }
      }
    }
  }

  lemma {:induction false} AtChar(s: string, p: int, w: string, k: nat)
    requires At(s, p, w) && k < |w|
    ensures s[p + k] == w[k]
  {
    assert s[p + k] == s[p..p + |w|][k];
  }

  // An occurrence lying in one part of a text, seen from the text and from the part
  lemma {:induction false} AtPart(a: string, m: string, b: string, p: int, w: string)
    requires |a| <= p && p + |w| <= |a| + |m|
    ensures At(a + m + b, p, w) <==> At(m, p - |a|, w)
  {
    assert (a + m + b)[p..p + |w|] == m[p - |a|..p - |a| + |w|];
  }

  // ---------- The loop ----------

  function SpliceOne(text: string, slot: Slot): string {
    if Index(text, Wrapped(slot.token)) >= 0 then ReplaceFirst(text, Wrapped(slot.token), Figure(slot.svg))
    else ReplaceFirst(text, slot.token, Figure(slot.svg))
  }

  function Splice(text: string, slots: seq<Slot>): string
    decreases |slots|
  {
    if slots == [] then text else Splice(SpliceOne(text, slots[0]), slots[1..])
  }

  method RenderSplice(sanitized: string, slots: seq<Slot>) returns (out: string)
    ensures out == Splice(sanitized, slots)
  {
    out := sanitized;
    for i := 0 to |slots|
      invariant Splice(out, slots[i..]) == Splice(sanitized, slots)
    {
      var s := slots[i];
      assert slots[i..][0] == s && slots[i..][1..] == slots[i + 1..];
      var figure := FIGURE_OPEN + s.svg;
      figure := figure + FIGURE_CLOSE;
      var wrapped := "<p>" + s.token + "</p>";
      if Index(out, wrapped) >= 0 {
        out := ReplaceFirst(out, wrapped, figure);
      } else {
        out := ReplaceFirst(out, s.token, figure);
      }
    }
  }

  // w is in s behind a, and not before.
  ghost predicate IsFirst(s: string, a: string, w: string, b: string) {
    s == a + w + b && forall p :: p < |a| ==> !At(s, p, w)
  }

  lemma {:induction false} FirstReplaced(s: string, a: string, w: string, b: string, with: string)
    requires IsFirst(s, a, w, b)
    ensures Index(s, w) == |a| && ReplaceFirst(s, w, with) == a + with + b
  {
    IndexFinds(s, w);
    IndexLeast(s, w);
    assert s[|a|..|a| + |w|] == w;
    assert At(s, |a|, w);
    assert s[..|a|] == a && s[|a| + |w|..] == b;
  }

  lemma {:induction false} IndexLeast(s: string, w: string)
    ensures forall p :: At(s, p, w) ==> 0 <= Index(s, w) <= p
  {
    if w <= s {
      assert s[0..|w|] == w;
    } else if s != "" {
      IndexLeast(s[1..], w);
      forall p | At(s, p, w)
        ensures 0 <= Index(s, w) <= p
      {
        assert p >= 1;
        AtTail(s, p, w);
      }
    }
  }

  // The figure takes the place of the first paragraph of the token, or else of the first token, or
  // else there is nothing to do.
  lemma {:induction false} SpliceOneIs(text: string, token: string, svg: string, a: string, b: string)
    ensures var out, wrapped := SpliceOne(text, Slot(token, svg)), "<p>" + token + "</p>";
      && (IsFirst(text, a, wrapped, b) ==> out == a + Figure(svg) + b)
      && (!Occurs(text, wrapped) && IsFirst(text, a, token, b) ==> out == a + Figure(svg) + b)
      && (!Occurs(text, wrapped) && !Occurs(text, token) ==> out == text)
  {
    hide Index, Figure;
    var wrapped := "<p>" + token + "</p>";
    assert Wrapped(token) == wrapped;
    IndexFinds(text, wrapped);
    IndexFinds(text, token);
    if IsFirst(text, a, wrapped, b) {
      FirstReplaced(text, a, wrapped, b, Figure(svg));
    }
    if IsFirst(text, a, token, b) {
      FirstReplaced(text, a, token, b, Figure(svg));
    }
  }

  lemma {:induction false} FigureIs(svg: string)
    ensures Figure(svg) == "<scroll-box><figure class=\"fig\">" + (svg + "</figure></scroll-box>")
  {
    assert Figure(svg) == FIGURE_OPEN + (svg + FIGURE_CLOSE);
  }

  // ---------- Simultaneous substitution ----------

  function Form(slot: Slot, wrapped: bool): string {
    if wrapped then Wrapped(slot.token) else slot.token
  }

  // The first slot whose wrapped token, or bare token, the text starts with
  function SlotAt(text: string, slots: seq<Slot>, wrapped: bool): (i: int)
    ensures -1 <= i < |slots|
  {
    if slots == [] then -1
    else if Form(slots[0], wrapped) <= text then 0
    else
      var i := SlotAt(text, slots[1..], wrapped);
      if i < 0 then -1 else i + 1
  }

  // What the text starts with, and the figure it stands for
  function HeadMatch(text: string, slots: seq<Slot>): Option<(string, string)> {
    var i := SlotAt(text, slots, true);
    if i >= 0 then Some((Wrapped(slots[i].token), Figure(slots[i].svg)))
    else
      var j := SlotAt(text, slots, false);
      if j >= 0 then Some((slots[j].token, Figure(slots[j].svg))) else None
  }

  // How much of the text the pass takes first, and what it puts out for it
  function HeadStep(text: string, slots: seq<Slot>): (r: (nat, string))
    requires text != ""
    ensures 1 <= r.0 <= |text|
  {
    match HeadMatch(text, slots)
    case None => (1, [text[0]])
    case Some((found, figure)) => if 1 <= |found| <= |text| then (|found|, figure) else (1, [text[0]])
  }

  // One pass from left to right: each wrapped or bare token becomes its figure, all else stays.
  function Substitute(text: string, slots: seq<Slot>): string
    decreases |text|
  {
    if text == "" then ""
    else var (n, out) := HeadStep(text, slots); out + Substitute(text[n..], slots)
  }

  // ---------- Tokens ----------

  // Long enough, no markup, and starting as all tokens do
  ghost predicate IsToken(t: string) {
    |t| >= 3 && t[0] == 'c' && t[1] == 'o' && forall k :: 0 <= k < |t| ==> t[k] != '<' && t[k] != '>'
  }

  // No token is part of another.
  ghost predicate TokensOk(slots: seq<Slot>) {
    && (forall s <- slots :: IsToken(s.token))
    && (forall s <- slots, t <- slots :: s != t ==> !Occurs(s.token, t.token))
  }

  ghost predicate SvgsOk(slots: seq<Slot>) {
    forall s <- slots, t <- slots :: !Occurs(s.svg, t.token)
  }

  // Each token occurs at most once.
  ghost predicate Once(text: string, slots: seq<Slot>) {
    forall s <- slots, p, q :: At(text, p, s.token) && At(text, q, s.token) ==> p == q
  }

  // Occurrences of different tokens do not overlap.
  ghost predicate Apart(text: string, slots: seq<Slot>) {
    forall s <- slots, t <- slots, p, q :: s != t && At(text, p, s.token) && At(text, q, t.token) ==>
      p + |s.token| <= q || q + |t.token| <= p
  }

  lemma {:induction false} WrappedChars(text: string, q: int, t: string)
    requires At(text, q, Wrapped(t))
    ensures At(text, q + 3, t)
    ensures text[q] == '<' && text[q + 1] == 'p' && text[q + 2] == '>'
    ensures var e := q + 3 + |t|; text[e] == '<' && text[e + 1] == '/' && text[e + 2] == 'p' && text[e + 3] == '>'
  {
    var w := Wrapped(t);
    AtChar(text, q, w, 0);
    AtChar(text, q, w, 1);
    AtChar(text, q, w, 2);
    AtChar(text, q, w, 3 + |t|);
    AtChar(text, q, w, 4 + |t|);
    AtChar(text, q, w, 5 + |t|);
    AtChar(text, q, w, 6 + |t|);
    forall k | 0 <= k < |t|
      ensures text[q + 3 + k] == t[k]
    {
      AtChar(text, q, w, 3 + k);
    }
  }

  lemma {:induction false} NoMarkupInside(text: string, p: int, t: string)
    requires IsToken(t) && At(text, p, t)
    ensures forall k :: p <= k < p + |t| ==> text[k] != '<' && text[k] != '>'
    ensures text[p] == 'c' && text[p + 1] == 'o'
  {
    forall k | p <= k < p + |t|
      ensures text[k] != '<' && text[k] != '>'
    {
      AtChar(text, p, t, k - p);
    }
    AtChar(text, p, t, 0);
    AtChar(text, p, t, 1);
  }

  // Where the token of a form starts
  function TokenStart(p: int, wrapped: bool): int {
    if wrapped then p + 3 else p
  }

  lemma {:induction false} FormsInOrder(text: string, p: int, s: Slot, ws: bool, q: int, t: Slot, wt: bool)
    requires IsToken(s.token) && IsToken(t.token)
    requires At(text, p, Form(s, ws)) && At(text, q, Form(t, wt))
    requires TokenStart(p, ws) + |s.token| <= TokenStart(q, wt)
    ensures p + |Form(s, ws)| <= q
  {
    FormHoldsToken(text, p, s, ws);
    FormHoldsToken(text, q, t, wt);
    NoMarkupInside(text, TokenStart(p, ws), s.token);
    NoMarkupInside(text, TokenStart(q, wt), t.token);
    var e := TokenStart(p, ws) + |s.token|;
    if ws {
      WrappedChars(text, p, s.token);
      assert text[e] == '<' && text[e + 1] == '/' && text[e + 2] == 'p' && text[e + 3] == '>';
    }
    if wt {
      WrappedChars(text, q, t.token);
      assert q != e - 1 && q != e - 2 && q != e - 3;
    }
    if ws {
      assert q != e && q != e + 1 && q != e + 2 && q != e + 3;
    }
  }

  lemma {:induction false} FormsApart(text: string, p: int, s: Slot, ws: bool, q: int, t: Slot, wt: bool)
    requires IsToken(s.token) && IsToken(t.token)
    requires At(text, p, Form(s, ws)) && At(text, q, Form(t, wt))
    requires var p', q' := TokenStart(p, ws), TokenStart(q, wt);
      p' + |s.token| <= q' || q' + |t.token| <= p'
    ensures p + |Form(s, ws)| <= q || q + |Form(t, wt)| <= p
  {
    if TokenStart(p, ws) + |s.token| <= TokenStart(q, wt) {
      FormsInOrder(text, p, s, ws, q, t, wt);
    } else {
      FormsInOrder(text, q, t, wt, p, s, ws);
    }
  }

  // ---------- One replacement ----------

  // No wrapped or bare token of a slot lies across position k.
  ghost predicate NoneAcross(text: string, k: int, slots: seq<Slot>) {
    forall s <- slots, w: bool, p {:trigger At(text, p, Form(s, w))} ::
      At(text, p, Form(s, w)) ==> p + |Form(s, w)| <= k || k <= p
  }

  // The occurrence one replacement consumes: the paragraph when there is one, else the token.
  ghost predicate Consumes(text: string, slot: Slot, a: string, w: bool, b: string) {
    && text == a + Form(slot, w) + b
    && (!w ==> !Occurs(text, Wrapped(slot.token)))
    && SpliceOne(text, slot) == a + Figure(slot.svg) + b
  }

  lemma {:induction false} ReplaceFirstIs(s: string, w: string, with: string) returns (a: string, b: string)
    requires Index(s, w) >= 0
    ensures s == a + w + b && ReplaceFirst(s, w, with) == a + with + b
  {
    IndexFinds(s, w);
    var i := Index(s, w);
    a, b := s[..i], s[i + |w|..];
    assert s[i..i + |w|] == w;
  }

  lemma {:induction false} SpliceConsumes(text: string, slot: Slot) returns (a: string, w: bool, b: string)
    requires Occurs(text, slot.token)
    ensures Consumes(text, slot, a, w, b)
  {
    IndexFinds(text, Wrapped(slot.token));
    IndexFinds(text, slot.token);
    w := Index(text, Wrapped(slot.token)) >= 0;
    a, b := ReplaceFirstIs(text, Form(slot, w), Figure(slot.svg));
  }

  lemma {:induction false} SpliceNothing(text: string, slot: Slot)
    requires !Occurs(text, slot.token)
    ensures SpliceOne(text, slot) == text
    ensures !Occurs(text, Wrapped(slot.token))
  {
    IndexFinds(text, Wrapped(slot.token));
    IndexFinds(text, slot.token);
    forall p
      ensures !At(text, p, Wrapped(slot.token))
    {
      if At(text, p, Wrapped(slot.token)) {
        WrappedChars(text, p, slot.token);
      }
    }
  }

  // Where the token itself is in a consumed form
  lemma {:induction false} FormHoldsToken(text: string, p: int, slot: Slot, w: bool)
    requires At(text, p, Form(slot, w))
    ensures At(text, if w then p + 3 else p, slot.token)
  {
    if w {
      WrappedChars(text, p, slot.token);
    }
  }

  // In a text with unique, separated tokens nothing lies across the ends of what is consumed.
  lemma {:induction false} NoneAcrossConsumed(text: string, slots: seq<Slot>, a: string, w: bool, b: string)
    requires slots != [] && TokensOk(slots) && Once(text, slots) && Apart(text, slots)
    requires Consumes(text, slots[0], a, w, b)
    ensures NoneAcross(text, |a|, slots) && NoneAcross(text, |a| + |Form(slots[0], w)|, slots)
  {
    var s, m := slots[0], Form(slots[0], w);
    assert s in slots;
    assert At(text, |a|, m);
    FormHoldsToken(text, |a|, s, w);
    forall t, v: bool, q | t in slots && At(text, q, Form(t, v))
      ensures q + |Form(t, v)| <= |a| || |a| <= q
      ensures q + |Form(t, v)| <= |a| + |m| || |a| + |m| <= q
    {
      FormHoldsToken(text, q, t, v);
      if t != s {
        FormsApart(text, |a|, s, w, q, t, v);
      }
    }
  }

  // Nothing lies across the ends of a figure, whatever surrounds it.
  lemma {:induction false} NoneAcrossFigure(a: string, svg: string, b: string, slots: seq<Slot>)
    requires forall s <- slots :: IsToken(s.token)
    ensures var text := a + Figure(svg) + b;
      NoneAcross(text, |a|, slots) && NoneAcross(text, |a| + |Figure(svg)|, slots)
  {
    var text := a + Figure(svg) + b;
    forall t, v: bool, q | t in slots && At(text, q, Form(t, v))
      ensures q + |Form(t, v)| <= |a| || |a| <= q
      ensures q + |Form(t, v)| <= |a| + |Figure(svg)| || |a| + |Figure(svg)| <= q
    {
      NotAcrossFigure(text, |a|, |a| + |Figure(svg)|, t, v, q);
    }
  }

  lemma {:induction false} NotAcrossFigure(text: string, x: int, y: int, t: Slot, v: bool, q: int)
    requires IsToken(t.token) && At(text, q, Form(t, v))
    requires 0 <= x && x + 3 <= y <= |text|
    requires text[x] == '<' && text[x + 1] == 's' && text[y - 1] == '>' && text[y - 2] == 'x'
    ensures q + |Form(t, v)| <= x || x <= q
    ensures q + |Form(t, v)| <= y || y <= q
  {
    FormHoldsToken(text, q, t, v);
    NoMarkupInside(text, TokenStart(q, v), t.token);
    if v {
      WrappedChars(text, q, t.token);
      var e := q + 3 + |t.token|;
      assert x != q + 1 && x != q + 2 && x != e && x != e + 1 && x != e + 2 && x != e + 3;
      assert y != q + 1 && y != q + 2 && y != q + 3 && y != e + 1 && y != e + 2 && y != e + 3;
    }
  }

  // ---------- Figures hold no tokens ----------

  lemma {:induction false} FigureHasNoToken(svg: string, t: string)
    requires IsToken(t) && !Occurs(svg, t)
    ensures !Occurs(Figure(svg), t)
  {
    forall p
      ensures !At(Figure(svg), p, t)
    {
      if At(Figure(svg), p, t) {
        NotInFigure(svg, p, t);
      }
    }
  }

  ghost predicate NoTokenStarts(s: string) {
    forall k, l :: 0 <= k < |s| && 0 <= l < |s| && l == k + 1 && s[k] == 'c' ==> s[l] != 'o'
  }

  // No token starts in a figure's markup.
  lemma {:induction false} NoTokenInMarkup()
    ensures NoTokenStarts(FIGURE_OPEN) && FIGURE_OPEN[|FIGURE_OPEN| - 1] == '>'
    ensures NoTokenStarts(FIGURE_CLOSE) && FIGURE_CLOSE[0] == '<'
  {
  }

  lemma {:induction false} NotInFrame(before: string, svg: string, after: string, p: int, t: string)
    requires IsToken(t) && At(before + svg + after, p, t)
    requires NoTokenStarts(before) && before != "" && before[|before| - 1] == '>'
    requires NoTokenStarts(after) && after != "" && after[0] == '<'
    ensures Occurs(svg, t)
  {
    var text, n, m := before + svg + after, |before|, |before| + |svg|;
    NoMarkupInside(text, p, t);
    assert forall k :: 0 <= k < n ==> text[k] == before[k];
    assert forall k :: m <= k < |text| ==> text[k] == after[k - m];
    assert text[n - 1] == '>' && text[m] == '<';
    assert p != n - 1 && n <= p;
    assert p + |t| <= m;
    AtPart(before, svg, after, p, t);
  }

  lemma {:induction false} NotInFigure(svg: string, p: int, t: string)
    requires IsToken(t) && At(Figure(svg), p, t)
    ensures Occurs(svg, t)
  {
    NoTokenInMarkup();
    NotInFrame(FIGURE_OPEN, svg, FIGURE_CLOSE, p, t);
  }

  // ---------- Tokens before and after one replacement ----------

  // Where a position of the text after a replacement was before it
  function Before(q: int, a: string, m: string, fig: string): int {
    if q < |a| then q else q - |fig| + |m|
  }

  lemma {:induction false} OccursAfter(a: string, m: string, b: string, svg: string, t: string, q: int)
    requires IsToken(t) && !Occurs(svg, t) && At(a + Figure(svg) + b, q, t)
    ensures q + |t| <= |a| || q >= |a| + |Figure(svg)|
    ensures At(a + m + b, Before(q, a, m, Figure(svg)), t)
  {
    var fig := Figure(svg);
    NotAcrossFigure(a + fig + b, |a|, |a| + |fig|, Slot(t, ""), false, q);
    FigureHasNoToken(svg, t);
    if |a| <= q && q + |t| <= |a| + |fig| {
      AtPart(a, fig, b, q, t);
    } else {
      AtOutside(a, fig, m, b, t, q);
    }
  }

  // Changing the middle of a text leaves occurrences before and after it.
  lemma {:induction false} AtOutside(a: string, m: string, m': string, b: string, t: string, q: int)
    requires At(a + m + b, q, t)
    requires q + |t| <= |a| || |a| + |m| <= q
    ensures At(a + m' + b, if q + |t| <= |a| then q else q - |m| + |m'|, t)
  {
    var x, y := a + m + b, a + m' + b;
    if q + |t| <= |a| {
      assert x[q..q + |t|] == a[q..q + |t|];
      assert y[q..q + |t|] == a[q..q + |t|];
    } else {
      var k := q - |a| - |m|;
      assert x == (a + m) + b && ((a + m) + b)[|a + m|..] == b;
      assert y == (a + m') + b && ((a + m') + b)[|a + m'|..] == b;
      assert x[q..q + |t|] == b[k..k + |t|];
      assert y[|a| + |m'| + k..|a| + |m'| + k + |t|] == b[k..k + |t|];
    }
  }

  // ---------- Substitution is local ----------

  lemma {:induction false} SlotAtIs(text: string, slots: seq<Slot>, w: bool)
    ensures SlotAt(text, slots, w) >= 0 ==> Form(slots[SlotAt(text, slots, w)], w) <= text
    ensures SlotAt(text, slots, w) < 0 ==> forall k :: 0 <= k < |slots| ==> !(Form(slots[k], w) <= text)
    ensures forall k :: 0 <= k < SlotAt(text, slots, w) ==> !(Form(slots[k], w) <= text)
  {
    if slots != [] && !(Form(slots[0], w) <= text) {
      SlotAtIs(text, slots[1..], w);
      forall k | 1 <= k < |slots|
        ensures Form(slots[k], w) == Form(slots[1..][k - 1], w)
      {
      }
    }
  }

  // Texts that start with the same forms have the same first slot.
  lemma {:induction false} SameSlotAt(x: string, y: string, slots: seq<Slot>, w: bool)
    requires forall s <- slots :: Form(s, w) <= x <==> Form(s, w) <= y
    ensures SlotAt(x, slots, w) == SlotAt(y, slots, w)
  {
    if slots != [] {
      assert slots[0] in slots;
      SameSlotAt(x, y, slots[1..], w);
    }
  }

  lemma {:induction false} SameHead(x: string, y: string, slots: seq<Slot>)
    requires NoneAcross(x + y, |x|, slots) && x != ""
    requires forall s <- slots :: IsToken(s.token)
    ensures HeadMatch(x + y, slots) == HeadMatch(x, slots)
  {
    forall s, w: bool | s in slots
      ensures Form(s, w) <= x <==> Form(s, w) <= x + y
    {
      if Form(s, w) <= x + y {
        assert At(x + y, 0, Form(s, w));
      }
    }
    SameSlotAt(x + y, x, slots, true);
    SameSlotAt(x + y, x, slots, false);
  }

  lemma {:induction false} HeadMatchIs(x: string, slots: seq<Slot>) returns (i: int, w: bool)
    requires HeadMatch(x, slots).Some?
    ensures 0 <= i < |slots| && HeadMatch(x, slots).value == (Form(slots[i], w), Figure(slots[i].svg))
    ensures Form(slots[i], w) <= x
  {
    SlotAtIs(x, slots, true);
    SlotAtIs(x, slots, false);
    w := SlotAt(x, slots, true) >= 0;
    i := SlotAt(x, slots, w);
  }

  lemma {:induction false} NoneAcrossTail(x: string, y: string, n: nat, slots: seq<Slot>)
    requires n <= |x| && NoneAcross(x + y, |x|, slots)
    ensures NoneAcross(x[n..] + y, |x| - n, slots)
  {
    forall s, w: bool, p | s in slots && At(x[n..] + y, p, Form(s, w))
      ensures p + |Form(s, w)| <= |x| - n || |x| - n <= p
    {
      var f := Form(s, w);
      assert (x + y)[p + n..p + n + |f|] == (x[n..] + y)[p..p + |f|];
      assert At(x + y, p + n, f);
    }
  }

  lemma {:induction false} SameStep(x: string, y: string, slots: seq<Slot>)
    requires NoneAcross(x + y, |x|, slots) && x != ""
    requires forall s <- slots :: IsToken(s.token)
    ensures HeadStep(x + y, slots) == HeadStep(x, slots)
  {
    SameHead(x, y, slots);
    if HeadMatch(x, slots).Some? {
      var i, w := HeadMatchIs(x, slots);
    }
  }

  lemma {:induction false} SplitStep(x: string, y: string, slots: seq<Slot>)
    requires x != "" && HeadStep(x + y, slots) == HeadStep(x, slots)
    ensures var (n, _) := HeadStep(x, slots);
      Substitute(x[n..] + y, slots) == Substitute(x[n..], slots) + Substitute(y, slots) ==>
        Substitute(x + y, slots) == Substitute(x, slots) + Substitute(y, slots)
  {
    hide HeadStep, Substitute;
    var (n, out) := HeadStep(x, slots);
    assert (x + y)[n..] == x[n..] + y;
    SubstituteUnfold(x + y, slots);
    SubstituteUnfold(x, slots);
    assert out + (Substitute(x[n..], slots) + Substitute(y, slots)) ==
      out + Substitute(x[n..], slots) + Substitute(y, slots);
  }

  lemma {:induction false} SubstituteSplits(x: string, y: string, slots: seq<Slot>)
    requires NoneAcross(x + y, |x|, slots)
    requires forall s <- slots :: IsToken(s.token)
    ensures Substitute(x + y, slots) == Substitute(x, slots) + Substitute(y, slots)
    decreases |x|
  {
    hide NoneAcross, IsToken, HeadStep, Substitute;
    if x == "" {
      assert x + y == y;
      SubstituteEmpty(slots);
    } else {
      SameStep(x, y, slots);
      var (n, _) := HeadStep(x, slots);
      NoneAcrossTail(x, y, n, slots);
      SubstituteSplits(x[n..], y, slots);
      SplitStep(x, y, slots);
    }
  }

  lemma {:induction false} SubstituteEmpty(slots: seq<Slot>)
    ensures Substitute("", slots) == ""
  {
  }

  lemma {:induction false} SubstituteUnfold(text: string, slots: seq<Slot>)
    requires text != ""
    ensures var (n, out) := HeadStep(text, slots); Substitute(text, slots) == out + Substitute(text[n..], slots)
  {
  }

  lemma {:induction false} SubstituteNothing(x: string, slots: seq<Slot>)
    requires forall s <- slots :: !Occurs(x, s.token)
    ensures Substitute(x, slots) == x
    decreases |x|
  {
    if x != "" {
      if HeadMatch(x, slots).Some? {
        var i, w := HeadMatchIs(x, slots);
        assert At(x, 0, Form(slots[i], w)) && slots[i] in slots;
        FormHoldsToken(x, 0, slots[i], w);
        assert false;
      }
      TailHasNone(x, slots);
      SubstituteNothing(x[1..], slots);
    }
  }

  lemma {:induction false} TailHasNone(x: string, slots: seq<Slot>)
    requires x != "" && forall s <- slots :: !Occurs(x, s.token)
    ensures forall s <- slots :: !Occurs(x[1..], s.token)
  {
    forall s, p | s in slots
      ensures !At(x[1..], p, s.token)
    {
      if p >= 0 {
        AtTail(x, p + 1, s.token);
      }
    }
  }

  // ---------- The loop is a simultaneous substitution ----------

  lemma {:induction false} DropUnused(x: string, slots: seq<Slot>)
    requires slots != [] && !Occurs(x, slots[0].token)
    ensures Substitute(x, slots) == Substitute(x, slots[1..])
    decreases |x|
  {
    if x != "" {
      HeadUnused(x, slots);
      var (n, _) := HeadStep(x, slots);
      NotInTail(x, n, slots[0].token);
      DropUnused(x[n..], slots);
    }
  }

  lemma {:induction false} HeadUnused(x: string, slots: seq<Slot>)
    requires slots != [] && !Occurs(x, slots[0].token)
    ensures HeadMatch(x, slots) == HeadMatch(x, slots[1..])
  {
    SpliceNothing(x, slots[0]);
    assert !At(x, 0, Wrapped(slots[0].token)) && !At(x, 0, slots[0].token);
  }

  lemma {:induction false} NotInTail(x: string, n: nat, t: string)
    requires n <= |x| && !Occurs(x, t)
    ensures !Occurs(x[n..], t)
  {
    forall p
      ensures !At(x[n..], p, t)
    {
      PartInWhole(x[..n], "", x[n..], p, t);
      assert x == x[..n] + "" + x[n..];
    }
  }

  // A form of the first slot on its own becomes its figure.
  lemma {:induction false} SubstituteForm(slots: seq<Slot>, w: bool)
    requires slots != [] && TokensOk(slots)
    ensures Substitute(Form(slots[0], w), slots) == Figure(slots[0].svg)
  {
    var m := Form(slots[0], w);
    assert slots[0] in slots;
    if !w {
      NoneWraps(m, slots);
    }
    SlotAtIs(m, slots, true);
    assert SlotAt(m, slots, w) == 0;
    assert HeadStep(m, slots) == (|m|, Figure(slots[0].svg));
    assert m[|m|..] == "";
  }

  lemma {:induction false} NoneWraps(m: string, slots: seq<Slot>)
    requires IsToken(m)
    ensures SlotAt(m, slots, true) < 0
  {
    if slots != [] {
      assert Wrapped(slots[0].token)[0] == '<';
      NoneWraps(m, slots[1..]);
    }
  }

  // Replacing the first slot and substituting the others is substituting them all.
  lemma {:induction false} SubstituteStep(text: string, slots: seq<Slot>)
    requires slots != [] && TokensOk(slots) && SvgsOk(slots) && Once(text, slots) && Apart(text, slots)
    ensures Substitute(text, slots) == Substitute(SpliceOne(text, slots[0]), slots[1..])
  {
    var s, rest := slots[0], slots[1..];
    assert s in slots && forall t <- rest :: t in slots;
    if !Occurs(text, s.token) {
      SpliceNothing(text, s);
      DropUnused(text, slots);
    } else {
      var a, w, b := SpliceConsumes(text, s);
      var m, fig := Form(s, w), Figure(s.svg);
      NoneAcrossConsumed(text, slots, a, w, b);
      SubstituteThree(a, m, b, slots);
      SubstituteForm(slots, w);
      GoneElsewhere(text, slots, a, w, b);
      DropUnused(a, slots);
      DropUnused(b, slots);
      NoneAcrossFigure(a, s.svg, b, rest);
      SubstituteThree(a, fig, b, rest);
      forall t | t in rest
        ensures !Occurs(fig, t.token)
      {
        FigureHasNoToken(s.svg, t.token);
      }
      SubstituteNothing(fig, rest);
    }
  }

  lemma {:induction false} SubstituteThree(a: string, m: string, b: string, slots: seq<Slot>)
    requires NoneAcross(a + m + b, |a|, slots) && NoneAcross(a + m + b, |a| + |m|, slots)
    requires forall s <- slots :: IsToken(s.token)
    ensures Substitute(a + m + b, slots) == Substitute(a, slots) + Substitute(m, slots) + Substitute(b, slots)
  {
    assert a + m + b == a + (m + b);
    SubstituteSplits(a, m + b, slots);
    NoneAcrossTail(a + m, b, |a|, slots);
    assert (a + m)[|a|..] == m;
    SubstituteSplits(m, b, slots);
  }

  // The consumed token occurs nowhere else.
  lemma {:induction false} GoneElsewhere(text: string, slots: seq<Slot>, a: string, w: bool, b: string)
    requires slots != [] && TokensOk(slots) && Once(text, slots)
    requires Consumes(text, slots[0], a, w, b)
    ensures !Occurs(a, slots[0].token) && !Occurs(b, slots[0].token)
  {
    var s, m := slots[0], Form(slots[0], w);
    assert s in slots && IsToken(s.token);
    assert At(text, |a|, m);
    FormHoldsToken(text, |a|, s, w);
    forall p
      ensures !At(a, p, s.token) && !At(b, p, s.token)
    {
      PartInWhole(a, m, b, p, s.token);
    }
  }

  lemma {:induction false} PartInWhole(a: string, m: string, b: string, p: int, t: string)
    ensures At(a, p, t) ==> At(a + m + b, p, t)
    ensures At(b, p, t) ==> At(a + m + b, p + |a| + |m|, t)
  {
  }

  lemma {:induction false} RestOk(text: string, slots: seq<Slot>)
    requires slots != [] && TokensOk(slots) && SvgsOk(slots) && Once(text, slots) && Apart(text, slots)
    ensures TokensOk(slots[1..]) && SvgsOk(slots[1..]) && Once(text, slots[1..]) && Apart(text, slots[1..])
    ensures forall t <- slots[1..] :: !Occurs(slots[0].svg, t.token)
  {
  }

  // The other tokens stay unique and separated.
  lemma {:induction false} SpliceKeeps(text: string, slots: seq<Slot>)
    requires slots != [] && TokensOk(slots) && SvgsOk(slots) && Once(text, slots) && Apart(text, slots)
    ensures TokensOk(slots[1..]) && SvgsOk(slots[1..])
    ensures Once(SpliceOne(text, slots[0]), slots[1..]) && Apart(SpliceOne(text, slots[0]), slots[1..])
  {
    RestOk(text, slots);
    if Occurs(text, slots[0].token) {
      var a, w, b := SpliceConsumes(text, slots[0]);
      StillOnce(a, Form(slots[0], w), b, slots[0].svg, slots[1..]);
      StillAllApart(a, Form(slots[0], w), b, slots[0].svg, slots[1..]);
    } else {
      SpliceNothing(text, slots[0]);
    }
  }

  lemma {:induction false} StillOnce(a: string, m: string, b: string, svg: string, slots: seq<Slot>)
    requires forall t <- slots :: IsToken(t.token) && !Occurs(svg, t.token)
    requires Once(a + m + b, slots)
    ensures Once(a + Figure(svg) + b, slots)
  {
    forall t, p, q | t in slots && At(a + Figure(svg) + b, p, t.token) && At(a + Figure(svg) + b, q, t.token)
      ensures p == q
    {
      OccursAfter(a, m, b, svg, t.token, p);
      OccursAfter(a, m, b, svg, t.token, q);
    }
  }

  lemma {:induction false} StillAllApart(a: string, m: string, b: string, svg: string, slots: seq<Slot>)
    requires forall t <- slots :: IsToken(t.token) && !Occurs(svg, t.token)
    requires Apart(a + m + b, slots)
    ensures Apart(a + Figure(svg) + b, slots)
  {
    forall s, t, p, q | s in slots && t in slots && s != t && At(a + Figure(svg) + b, p, s.token) &&
      At(a + Figure(svg) + b, q, t.token)
      ensures p + |s.token| <= q || q + |t.token| <= p
    {
      StillApart(a, m, b, svg, s.token, p, t.token, q);
    }
  }

  lemma {:induction false} StillApart(a: string, m: string, b: string, svg: string, t: string, p: int, u: string,
                                      q: int)
    requires IsToken(t) && IsToken(u) && !Occurs(svg, t) && !Occurs(svg, u)
    requires At(a + Figure(svg) + b, p, t) && At(a + Figure(svg) + b, q, u)
    requires forall p', q' :: At(a + m + b, p', t) && At(a + m + b, q', u) ==> p' + |t| <= q' || q' + |u| <= p'
    ensures p + |t| <= q || q + |u| <= p
  {
    OccursAfter(a, m, b, svg, t, p);
    OccursAfter(a, m, b, svg, u, q);
  }

  // When tokens are unique in the text, do not overlap there, and occur in no diagram, replacing
  // them one by one is replacing them all at once: every slot becomes its figure, with its
  // paragraph when it has one, and nothing else changes.
  lemma {:induction false} SpliceIsSubstitution(text: string, slots: seq<Slot>)
    requires TokensOk(slots) && SvgsOk(slots) && Once(text, slots) && Apart(text, slots)
    ensures Splice(text, slots) == Substitute(text, slots)
    decreases |slots|
  {
    if slots == [] {
      SubstituteNothing(text, []);
    } else {
      SubstituteStep(text, slots);
      SpliceKeeps(text, slots);
      SpliceIsSubstitution(SpliceOne(text, slots[0]), slots[1..]);
    }
  }

  // ---------- Order ----------

  // Of two tokens at the same place one is part of the other.
  lemma {:induction false} SamePlace(text: string, p: int, t: string, u: string)
    requires At(text, p, t) && At(text, p, u)
    ensures Occurs(t, u) || Occurs(u, t)
  {
    var short, long := if |t| <= |u| then t else u, if |t| <= |u| then u else t;
    assert long[0..|short|] == text[p..p + |short|] by {
      assert long == text[p..p + |long|];
    }
    assert At(long, 0, short);
  }

  lemma {:induction false} PrefixesAgree(x: string, s: Slot, t: Slot, v: bool)
    requires Form(s, v) <= x && Form(t, v) <= x
    ensures Occurs(s.token, t.token) || Occurs(t.token, s.token)
  {
    assert At(x, 0, Form(s, v)) && At(x, 0, Form(t, v));
    FormHoldsToken(x, 0, s, v);
    FormHoldsToken(x, 0, t, v);
    SamePlace(x, if v then 3 else 0, s.token, t.token);
  }

  lemma {:induction false} SameHeadAnyOrder(x: string, slots: seq<Slot>, slots': seq<Slot>)
    requires TokensOk(slots) && forall s :: s in slots <==> s in slots'
    ensures HeadMatch(x, slots) == HeadMatch(x, slots')
  {
    forall v: bool
      ensures var i, j := SlotAt(x, slots, v), SlotAt(x, slots', v);
        (i >= 0 <==> j >= 0) && (i >= 0 ==> slots[i] == slots'[j])
    {
      var i, j := SlotAt(x, slots, v), SlotAt(x, slots', v);
      SlotAtIs(x, slots, v);
      SlotAtIs(x, slots', v);
      if i >= 0 {
        assert slots[i] in slots';
      }
      if j >= 0 {
        assert slots'[j] in slots;
      }
      if i >= 0 && j >= 0 {
        assert slots[i] in slots;
        PrefixesAgree(x, slots[i], slots'[j], v);
      }
    }
  }

  lemma {:induction false} SubstituteAnyOrder(x: string, slots: seq<Slot>, slots': seq<Slot>)
    requires TokensOk(slots) && forall s :: s in slots <==> s in slots'
    ensures Substitute(x, slots) == Substitute(x, slots')
    decreases |x|
  {
    if x != "" {
      SameHeadAnyOrder(x, slots, slots');
      var (n, _) := HeadStep(x, slots);
      SubstituteAnyOrder(x[n..], slots, slots');
    }
  }

  // Under the same conditions the order of the slots makes no difference.
  lemma {:induction false} SpliceAnyOrder(text: string, slots: seq<Slot>, slots': seq<Slot>)
    requires TokensOk(slots) && SvgsOk(slots) && Once(text, slots) && Apart(text, slots)
    requires forall s :: s in slots <==> s in slots'
    ensures Splice(text, slots) == Splice(text, slots')
  {
    SpliceIsSubstitution(text, slots);
    SpliceIsSubstitution(text, slots');
    SubstituteAnyOrder(text, slots, slots');
  }

  // ---------- Exactly when no diagram is lost ----------

  // Every token in the text is still there when its turn comes.
  ghost predicate NoneLost(text: string, slots: seq<Slot>) {
    forall k :: 0 <= k < |slots| && Occurs(text, slots[k].token) ==>
      Occurs(Splice(text, slots[..k]), slots[k].token)
  }

  lemma {:induction false} SpliceTake(text: string, slots: seq<Slot>, k: nat)
    requires 0 < k <= |slots|
    ensures Splice(text, slots[..k]) == Splice(SpliceOne(text, slots[0]), slots[1..][..k - 1])
  {
    assert slots[..k][1..] == slots[1..][..k - 1];
  }

  lemma {:induction false} AbsentStaysOne(text: string, slot: Slot, t: string)
    requires IsToken(t) && !Occurs(slot.svg, t) && !Occurs(text, t)
    ensures !Occurs(SpliceOne(text, slot), t)
  {
    if Occurs(text, slot.token) {
      var a, w, b := SpliceConsumes(text, slot);
      var m := Form(slot, w);
      forall q
        ensures !At(a + Figure(slot.svg) + b, q, t)
      {
        if At(a + Figure(slot.svg) + b, q, t) {
          OccursAfter(a, m, b, slot.svg, t, q);
        }
      }
    } else {
      SpliceNothing(text, slot);
    }
  }

  lemma {:induction false} AbsentStays(text: string, slots: seq<Slot>, t: string)
    requires IsToken(t) && forall s <- slots :: !Occurs(s.svg, t)
    requires !Occurs(text, t)
    ensures !Occurs(Splice(text, slots), t)
    decreases |slots|
  {
    if slots != [] {
      assert slots[0] in slots;
      AbsentStaysOne(text, slots[0], t);
      AbsentStays(SpliceOne(text, slots[0]), slots[1..], t);
    }
  }

  // Replacing one token leaves the others that do not overlap it.
  lemma {:induction false} OthersStay(text: string, slots: seq<Slot>, t: Slot)
    requires slots != [] && TokensOk(slots) && Apart(text, slots) && t in slots && t != slots[0]
    requires Occurs(text, t.token)
    ensures Occurs(SpliceOne(text, slots[0]), t.token)
  {
    var s := slots[0];
    assert s in slots;
    if Occurs(text, s.token) {
      var a, w, b := SpliceConsumes(text, s);
      var m := Form(s, w);
      var q :| At(text, q, t.token);
      assert At(text, |a|, m);
      FormHoldsToken(text, |a|, s, w);
      FormsApart(text, |a|, s, w, q, t, false);
      AtOutside(a, m, Figure(s.svg), b, t.token, q);
    } else {
      SpliceNothing(text, s);
    }
  }

  lemma {:induction false} ApartLosesNone(text: string, slots: seq<Slot>)
    requires TokensOk(slots) && SvgsOk(slots) && Distinct(slots) && Once(text, slots) && Apart(text, slots)
    ensures NoneLost(text, slots)
    decreases |slots|
  {
    if slots != [] {
      SpliceKeeps(text, slots);
      ApartLosesNone(SpliceOne(text, slots[0]), slots[1..]);
      forall k | 0 <= k < |slots| && Occurs(text, slots[k].token)
        ensures Occurs(Splice(text, slots[..k]), slots[k].token)
      {
        if k > 0 {
          assert slots[k] in slots && slots[k] == slots[1..][k - 1];
          OthersStay(text, slots, slots[k]);
          SpliceTake(text, slots, k);
        }
      }
    }
  }

  // A token still there after the first replacement was clear of what it consumed.
  lemma {:induction false} SurvivorIsClear(a: string, m: string, b: string, svg: string, t: string, q: int)
      returns (q': int)
    requires IsToken(t) && !Occurs(svg, t)
    requires Occurs(a + Figure(svg) + b, t) && At(a + m + b, q, t)
    requires forall x, y :: At(a + m + b, x, t) && At(a + m + b, y, t) ==> x == y
    ensures q + |t| <= |a| || |a| + |m| <= q
    ensures q' == if q + |t| <= |a| then q else q - |m| + |Figure(svg)|
    ensures At(a + Figure(svg) + b, q', t)
  {
    var p :| At(a + Figure(svg) + b, p, t);
    OccursAfter(a, m, b, svg, t, p);
    AtOutside(a, m, Figure(svg), b, t, q);
    q' := if q + |t| <= |a| then q else q - |m| + |Figure(svg)|;
  }

  lemma {:induction false} SurvivorsWereApart(a: string, m: string, b: string, svg: string, s: string, t: string,
                                              p: int, q: int)
    requires IsToken(s) && IsToken(t) && !Occurs(svg, s) && !Occurs(svg, t)
    requires At(a + m + b, p, s) && At(a + m + b, q, t)
    requires forall x, y :: At(a + m + b, x, s) && At(a + m + b, y, s) ==> x == y
    requires forall x, y :: At(a + m + b, x, t) && At(a + m + b, y, t) ==> x == y
    requires Occurs(a + Figure(svg) + b, s) && Occurs(a + Figure(svg) + b, t)
    requires forall x, y :: At(a + Figure(svg) + b, x, s) && At(a + Figure(svg) + b, y, t) ==>
      x + |s| <= y || y + |t| <= x
    ensures p + |s| <= q || q + |t| <= p
  {
    var p' := SurvivorIsClear(a, m, b, svg, s, p);
    var q' := SurvivorIsClear(a, m, b, svg, t, q);
  }

  // The tokens still there after the first replacement, and its own, were apart before it.
  lemma {:induction false} SurvivorPair(text: string, slots: seq<Slot>, a: string, w: bool, b: string, s: Slot, t: Slot,
                                        p: int, q: int)
    requires slots != [] && s in slots && t in slots[1..] && s != t && t != slots[0]
    requires TokensOk(slots) && SvgsOk(slots) && Once(text, slots) && Consumes(text, slots[0], a, w, b)
    requires Apart(SpliceOne(text, slots[0]), slots[1..])
    requires forall u <- slots[1..] :: Occurs(text, u.token) ==> Occurs(SpliceOne(text, slots[0]), u.token)
    requires At(text, p, s.token) && At(text, q, t.token)
    ensures p + |s.token| <= q || q + |t.token| <= p
  {
    var s0, m := slots[0], Form(slots[0], w);
    assert s0 in slots && t in slots && At(text, |a|, m);
    FormHoldsToken(text, |a|, s0, w);
    hide Form, Figure, At, IsToken, SpliceOne;
    if s == s0 {
      var q' := SurvivorIsClear(a, m, b, s0.svg, t.token, q);
    } else {
      SurvivorsWereApart(a, m, b, s0.svg, s.token, t.token, p, q);
    }
  }

  lemma {:induction false} SurvivorsApart(text: string, slots: seq<Slot>)
    requires slots != [] && TokensOk(slots) && SvgsOk(slots) && Once(text, slots)
    requires Apart(SpliceOne(text, slots[0]), slots[1..])
    requires forall t <- slots[1..] :: Occurs(text, t.token) ==> Occurs(SpliceOne(text, slots[0]), t.token)
    ensures Apart(text, slots)
  {
    hide TokensOk, SvgsOk, Once, At, Consumes, SpliceOne;
    var s0, rest := slots[0], slots[1..];
    assert forall t :: t in slots <==> t == s0 || t in rest;
    if Occurs(text, s0.token) {
      var a, w, b := SpliceConsumes(text, s0);
      forall s, t, p, q | s in slots && t in slots && s != t && At(text, p, s.token) && At(text, q, t.token)
        ensures p + |s.token| <= q || q + |t.token| <= p
      {
        if t == s0 {
          SurvivorPair(text, slots, a, w, b, t, s, q, p);
        } else {
          SurvivorPair(text, slots, a, w, b, s, t, p, q);
        }
      }
    } else {
      SpliceNothing(text, s0);
      ApartWithUnused(text, slots);
    }
  }

  lemma {:induction false} ApartWithUnused(text: string, slots: seq<Slot>)
    requires slots != [] && !Occurs(text, slots[0].token) && Apart(text, slots[1..])
    ensures Apart(text, slots)
  {
    assert forall t :: t in slots <==> t == slots[0] || t in slots[1..];
  }

  lemma {:induction false} NoneLostApart(text: string, slots: seq<Slot>)
    requires TokensOk(slots) && SvgsOk(slots) && Distinct(slots) && Once(text, slots)
    requires NoneLost(text, slots)
    ensures Apart(text, slots)
    decreases |slots|
  {
    if slots != [] {
      var s, rest := slots[0], slots[1..];
      var text' := SpliceOne(text, s);
      assert s in slots && forall t <- rest :: t in slots;
      forall k | 0 <= k < |rest|
        ensures Occurs(text, rest[k].token) ==> Occurs(text', rest[k].token)
        ensures Occurs(text', rest[k].token) ==> Occurs(Splice(text', rest[..k]), rest[k].token)
      {
        assert rest[k] == slots[k + 1] && rest[k] in rest;
        SpliceTake(text, slots, k + 1);
        if !Occurs(text', rest[k].token) {
          AbsentStays(text', rest[..k], rest[k].token);
        }
        if !Occurs(text, rest[k].token) {
          AbsentStaysOne(text, s, rest[k].token);
        }
      }
      OnceAfter(text, slots);
      NoneLostApart(text', rest);
      SurvivorsApart(text, slots);
    }
  }

  lemma {:induction false} OnceAfter(text: string, slots: seq<Slot>)
    requires slots != [] && TokensOk(slots) && SvgsOk(slots) && Once(text, slots)
    ensures TokensOk(slots[1..]) && SvgsOk(slots[1..]) && Once(SpliceOne(text, slots[0]), slots[1..])
  {
    var s := slots[0];
    assert s in slots && forall t <- slots[1..] :: t in slots;
    if Occurs(text, s.token) {
      var a, w, b := SpliceConsumes(text, s);
      StillOnce(a, Form(s, w), b, s.svg, slots[1..]);
    } else {
      SpliceNothing(text, s);
    }
  }

  // For distinct slots whose tokens occur at most once each: no replacement destroys another's
  // token exactly when no two tokens overlap in the text.
  lemma {:induction false} NoneLostIffApart(text: string, slots: seq<Slot>)
    requires TokensOk(slots) && SvgsOk(slots) && Distinct(slots) && Once(text, slots)
    ensures NoneLost(text, slots) <==> Apart(text, slots)
  {
    if Apart(text, slots) {
      ApartLosesNone(text, slots);
    }
    if NoneLost(text, slots) {
      NoneLostApart(text, slots);
    }
  }

  // ---------- Tokens in paragraphs of their own ----------

  // Every token in the text is a whole paragraph, as the pipeline writes it.
  ghost predicate InParagraphs(text: string, slots: seq<Slot>) {
    forall s <- slots, p :: At(text, p, s.token) ==> At(text, p - 3, Wrapped(s.token))
  }

  // What is around the token of a paragraph
  lemma {:induction false} ParagraphEnds(text: string, p: int, t: string)
    requires At(text, p - 3, Wrapped(t))
    ensures At(text, p, t) && 0 < p && p + |t| < |text| && text[p - 1] == '>' && text[p + |t|] == '<'
  {
    WrappedChars(text, p - 3, t);
  }

  lemma {:induction false} ParagraphsInOrder(text: string, p: int, t: string, q: int, u: string)
    requires IsToken(t) && IsToken(u) && !Occurs(t, u) && !Occurs(u, t) && p <= q
    requires At(text, p - 3, Wrapped(t)) && At(text, q - 3, Wrapped(u))
    ensures p + |t| <= q
  {
    ParagraphEnds(text, p, t);
    ParagraphEnds(text, q, u);
    NoMarkupInside(text, p, t);
    if p == q {
      SamePlace(text, p, t, u);
    }
    assert !(p <= q - 1 < p + |t|);
  }

  // Tokens in paragraphs of their own do not overlap.
  lemma {:induction false} ParagraphsApart(text: string, slots: seq<Slot>)
    requires TokensOk(slots) && InParagraphs(text, slots)
    ensures Apart(text, slots)
  {
    forall s, t, p, q | s in slots && t in slots && s != t && At(text, p, s.token) && At(text, q, t.token)
      ensures p + |s.token| <= q || q + |t.token| <= p
    {
      if p <= q {
        ParagraphsInOrder(text, p, s.token, q, t.token);
      } else {
        ParagraphsInOrder(text, q, t.token, p, s.token);
      }
    }
  }

  // So on a page whose tokens each stand once, in a paragraph of their own, the loop is the
  // simultaneous substitution in every order of the slots.
  lemma {:induction false} ParagraphsSplice(text: string, slots: seq<Slot>, slots': seq<Slot>)
    requires TokensOk(slots) && SvgsOk(slots) && Once(text, slots) && InParagraphs(text, slots)
    requires forall s :: s in slots <==> s in slots'
    ensures Splice(text, slots) == Splice(text, slots') == Substitute(text, slots)
    ensures Distinct(slots) ==> NoneLost(text, slots)
  {
    ParagraphsApart(text, slots);
    SpliceIsSubstitution(text, slots);
    SpliceAnyOrder(text, slots, slots');
    if Distinct(slots) {
      NoneLostIffApart(text, slots);
    }
  }
}
