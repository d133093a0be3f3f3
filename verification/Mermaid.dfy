/**
Placeholder tokens for diagrams (internal/content/pipeline.go): how `renderMermaid` allocates them
while it edits the document, and why they splice safely.
*/
module Mermaid {
  import opened Text
  import opened Order
  import opened Slug
  import opened Splice
  import opened Checksum

  // The first eight bytes of a checksum in hexadecimal
  predicate IsShortHash(h: string) {
    |h| == 16 && IsHex(h)
  }

  const TOKEN_PREFIX := "codepuke-mermaid-"

  function Token(i: nat, hash: string): string {
    TOKEN_PREFIX + Decimal(i) + "-" + hash
  }

  // ---------- Tokens ----------

  lemma {:induction false} TokenChars(i: nat, hash: string, k: nat)
    requires IsShortHash(hash) && k < |Token(i, hash)|
    ensures var n, d := |TOKEN_PREFIX|, |Decimal(i)|;
      && |Token(i, hash)| == n + d + 1 + 16
      && (k < n ==> Token(i, hash)[k] == TOKEN_PREFIX[k])
      && (n <= k < n + d ==> Token(i, hash)[k] == Decimal(i)[k - n] && '0' <= Token(i, hash)[k] <= '9')
      && (k == n + d ==> Token(i, hash)[k] == '-')
      && (n + d < k ==> IsHexDigit(Token(i, hash)[k]))
  {
    DecimalIsAlnum(i);
    var n, d := |TOKEN_PREFIX|, |Decimal(i)|;
    if n <= k < n + d {
      assert Decimal(i)[k - n] in Decimal(i);
    } else if n + d < k {
      assert Token(i, hash)[k] == hash[k - n - d - 1];
    }
  }

  // The letter o comes second in a token and nowhere else.
  lemma {:induction false} OnlyOneO(i: nat, hash: string, k: nat)
    requires IsShortHash(hash) && k < |Token(i, hash)|
    ensures Token(i, hash)[k] == 'o' <==> k == 1
    ensures Token(i, hash)[k] != '<' && Token(i, hash)[k] != '>'
  {
    TokenChars(i, hash, k);
  }

  lemma {:induction false} TokenIsToken(i: nat, hash: string)
    requires IsShortHash(hash)
    ensures IsToken(Token(i, hash))
  {
    TokenChars(i, hash, 0);
    forall k | 0 <= k < |Token(i, hash)|
      ensures Token(i, hash)[k] != '<' && Token(i, hash)[k] != '>'
    {
      OnlyOneO(i, hash, k);
    }
  }

  // Tokens of different numbers are not parts of one another.
  lemma {:induction false} TokensNotNested(i: nat, g: string, j: nat, h: string)
    requires IsShortHash(g) && IsShortHash(h) && i != j
    ensures !Occurs(Token(i, g), Token(j, h))
  {
    forall p
      ensures !At(Token(i, g), p, Token(j, h))
    {
      if At(Token(i, g), p, Token(j, h)) {
        NestedSameNumber(i, g, j, h, p);
      }
    }
  }

  lemma {:induction false} NestedSameNumber(i: nat, g: string, j: nat, h: string, p: int)
    requires IsShortHash(g) && IsShortHash(h)
    requires At(Token(i, g), p, Token(j, h))
    ensures i == j
  {
    var s, t, n := Token(i, g), Token(j, h), |TOKEN_PREFIX|;
    TokenChars(i, g, 0);
    TokenChars(j, h, 0);
    AtChar(s, p, t, 1);
    OnlyOneO(j, h, 1);
    OnlyOneO(i, g, p + 1);
    assert p == 0;
    var di, dj := |Decimal(i)|, |Decimal(j)|;
    var d := if di <= dj then di else dj;
    AtChar(s, 0, t, n + d);
    TokenChars(i, g, n + d);
    TokenChars(j, h, n + d);
    assert di == dj;
    forall k | 0 <= k < d
      ensures Decimal(i)[k] == Decimal(j)[k]
    {
      AtChar(s, 0, t, n + k);
      TokenChars(i, g, n + k);
      TokenChars(j, h, n + k);
    }
    assert Decimal(i) == Decimal(j);
    DecimalInjective(i, j);
  }

  // ---------- Allocation ----------

  datatype Outcome = Svg(svg: string) | Unavailable | RenderError

  datatype Node = Fence(language: string, diagram: string) | Paragraph(token: string) | OtherNode

  predicate IsMermaid(n: Node) {
    n.Fence? && n.language == "mermaid"
  }

  // The renderer's answer to the k-th request, for this diagram
  type Renderer = (nat, string) -> Outcome

  // Where the mermaid fences are among the first n nodes
  function FencesIn(doc: seq<Node>, n: nat): seq<nat>
    requires n <= |doc|
  {
    if n == 0 then []
    else if IsMermaid(doc[n - 1]) then FencesIn(doc, n - 1) + [n - 1]
    else FencesIn(doc, n - 1)
  }

  // Different mermaid fences of the document, in document order
  ghost predicate AreFences(doc: seq<Node>, fences: seq<nat>) {
    && (forall k :: 0 <= k < |fences| ==> fences[k] < |doc| && IsMermaid(doc[fences[k]]))
    && (forall j, k :: 0 <= j < k < |fences| ==> fences[j] < fences[k])
  }

  lemma {:induction false} FencesAreFences(doc: seq<Node>, n: nat)
    requires n <= |doc|
    ensures AreFences(doc, FencesIn(doc, n))
    ensures forall k :: 0 <= k < |FencesIn(doc, n)| ==> FencesIn(doc, n)[k] < n
    ensures forall i :: 0 <= i < n ==> (IsMermaid(doc[i]) <==> i in FencesIn(doc, n))
  {
    if n > 0 {
      FencesAreFences(doc, n - 1);
    }
  }

  function DiagramsOf(doc: seq<Node>, fences: seq<nat>): (r: seq<string>)
    requires AreFences(doc, fences)
  {
    seq(|fences|, k requires 0 <= k < |fences| => doc[fences[k]].diagram)
  }

  // The slots of diagrams rendered in order; one that stays a code block gets none
  function SlotsFor(diagrams: seq<string>, render: Renderer, sum: Sum): seq<Slot> {
    if diagrams == [] then []
    else
      var k := |diagrams| - 1;
      var before := SlotsFor(diagrams[..k], render, sum);
      match render(k, diagrams[k])
      case Svg(svg) => before + [Slot(Token(|before|, Short(sum, diagrams[k], 8)), svg)]
      case _ => before
  }

  // The document once the first k fences are rendered: each rendered one is its token's paragraph
  function DocAfter(doc: seq<Node>, fences: seq<nat>, render: Renderer, sum: Sum, k: nat): (r: seq<Node>)
    requires AreFences(doc, fences) && k <= |fences|
    ensures |r| == |doc|
  {
    if k == 0 then doc
    else
      var before := DocAfter(doc, fences, render, sum, k - 1);
      var diagrams := DiagramsOf(doc, fences);
      if render(k - 1, diagrams[k - 1]).Svg? then
        before[fences[k - 1] := Paragraph(Token(|SlotsFor(diagrams[..k - 1], render, sum)|,
                                                Short(sum, diagrams[k - 1], 8)))]
      else before
  }

  lemma {:induction false} OneMoreFence(doc: seq<Node>, fences: seq<nat>, render: Renderer, sum: Sum, k: nat)
    requires AreFences(doc, fences) && k < |fences|
    ensures var diagrams := DiagramsOf(doc, fences);
      var slots, nodes := SlotsFor(diagrams[..k], render, sum), DocAfter(doc, fences, render, sum, k);
      var token := Token(|slots|, Short(sum, diagrams[k], 8));
      match render(k, diagrams[k])
      case Svg(svg) =>
        && SlotsFor(diagrams[..k + 1], render, sum) == slots + [Slot(token, svg)]
        && DocAfter(doc, fences, render, sum, k + 1) == nodes[fences[k] := Paragraph(token)]
      case _ =>
        && SlotsFor(diagrams[..k + 1], render, sum) == slots
        && DocAfter(doc, fences, render, sum, k + 1) == nodes
  {
    var diagrams := DiagramsOf(doc, fences);
    assert diagrams[..k + 1][..k] == diagrams[..k];
  }

  lemma {:induction false} LaterFencesKept(doc: seq<Node>, fences: seq<nat>, render: Renderer, sum: Sum, k: nat, i: nat)
    requires AreFences(doc, fences) && k <= |fences| && i < |doc|
    requires forall j :: 0 <= j < k ==> fences[j] != i
    ensures DocAfter(doc, fences, render, sum, k)[i] == doc[i]
  {
    if k > 0 {
      LaterFencesKept(doc, fences, render, sum, k - 1, i);
    }
  }

  ghost predicate Fails(diagrams: seq<string>, render: Renderer, n: nat) {
    exists k :: 0 <= k < n <= |diagrams| && render(k, diagrams[k]).RenderError?
  }

  method RenderMermaid(nodes: array<Node>, render: Renderer, sum: Sum) returns (r: Option<seq<Slot>>)
    modifies nodes
    ensures var doc := old(nodes[..]);
      var fences := FencesIn(doc, |doc|);
      && AreFences(doc, fences)
      && (r.None? <==> Fails(DiagramsOf(doc, fences), render, |fences|))
      && (r.Some? ==> r.value == SlotsFor(DiagramsOf(doc, fences), render, sum))
      && (r.Some? ==> nodes[..] == DocAfter(doc, fences, render, sum, |fences|))
  {
    ghost var doc := nodes[..];
    var fences: seq<nat> := [];
    for i := 0 to nodes.Length
      invariant nodes[..] == doc
      invariant fences == FencesIn(doc, i)
    {
      if IsMermaid(nodes[i]) {
        fences := fences + [i];
      }
    }
    FencesAreFences(doc, |doc|);
    r := RenderFences(nodes, fences, render, sum, doc, DiagramsOf(doc, fences));
  }

  method RenderFence(nodes: array<Node>, i: nat, k: nat, slots: seq<Slot>, render: Renderer, sum: Sum)
    returns (ok: bool, slots': seq<Slot>)
    requires i < nodes.Length && IsMermaid(nodes[i])
    modifies nodes
    ensures ok <==> !render(k, old(nodes[i]).diagram).RenderError?
    ensures var token := Token(|slots|, Short(sum, old(nodes[i]).diagram, 8));
      match render(k, old(nodes[i]).diagram)
      case Svg(svg) => slots' == slots + [Slot(token, svg)] && nodes[..] == old(nodes[..])[i := Paragraph(token)]
      case _ => slots' == slots && nodes[..] == old(nodes[..])
  {
    slots' := slots;
    var diagram := nodes[i].diagram;
    match render(k, diagram) {
      case Unavailable =>
        return true, slots;
      case RenderError =>
        return false, slots;
      case Svg(svg) =>
        var token := Token(|slots|, Short(sum, diagram, 8));
        nodes[i] := Paragraph(token);
        return true, slots + [Slot(token, svg)];
    }
  }

  method RenderFences(nodes: array<Node>, fences: seq<nat>, render: Renderer, sum: Sum, ghost doc: seq<Node>,
                      ghost diagrams: seq<string>)
    returns (r: Option<seq<Slot>>)
    requires doc == nodes[..] && AreFences(doc, fences) && diagrams == DiagramsOf(doc, fences)
    modifies nodes
    ensures r.None? <==> Fails(diagrams, render, |fences|)
    ensures r.Some? ==> r.value == SlotsFor(diagrams, render, sum)
    ensures r.Some? ==> nodes[..] == DocAfter(doc, fences, render, sum, |fences|)
  {
    var slots: seq<Slot> := [];
    for k := 0 to |fences|
      invariant slots == SlotsFor(diagrams[..k], render, sum)
      invariant !Fails(diagrams, render, k)
      invariant nodes[..] == DocAfter(doc, fences, render, sum, k)
    {
      var i := fences[k];
      LaterFencesKept(doc, fences, render, sum, k, i);
      OneMoreFence(doc, fences, render, sum, k);
      assert nodes[i] == nodes[..][i] == doc[i];
      var ok;
      ok, slots := RenderFence(nodes, i, k, slots, render, sum);
      if !ok {
        return None;
      }
    }
    assert diagrams[..|fences|] == diagrams;
    return Some(slots);
  }

  // The diagrams among the first n that were drawn
  ghost function Drawn(diagrams: seq<string>, render: Renderer, n: nat): set<nat>
    requires n <= |diagrams|
  {
    set k: nat | k < n && render(k, diagrams[k]).Svg?
  }

  lemma {:induction false} DrawnSnoc(diagrams: seq<string>, render: Renderer)
    requires diagrams != []
    ensures var k := |diagrams| - 1;
      |Drawn(diagrams, render, k + 1)| ==
        |Drawn(diagrams[..k], render, k)| + if render(k, diagrams[k]).Svg? then 1 else 0
  {
    var k := |diagrams| - 1;
    var all, before := Drawn(diagrams, render, k + 1), Drawn(diagrams[..k], render, k);
    assert forall j :: j in all <==> j in before || (j == k && render(k, diagrams[k]).Svg?);
    assert k !in before;
    assert all == if render(k, diagrams[k]).Svg? then before + {k} else before;
  }

  lemma {:induction false} DrawnPrefix(diagrams: seq<string>, render: Renderer, n: nat, k: nat)
    requires k <= n <= |diagrams|
    ensures Drawn(diagrams[..n], render, k) == Drawn(diagrams, render, k)
  {
  }

  lemma {:induction false} SlotsSnoc(diagrams: seq<string>, render: Renderer, sum: Sum)
    requires diagrams != []
    ensures var k := |diagrams| - 1;
      var before := SlotsFor(diagrams[..k], render, sum);
      SlotsFor(diagrams, render, sum) ==
        if render(k, diagrams[k]).Svg? then
          before + [Slot(Token(|before|, Short(sum, diagrams[k], 8)), render(k, diagrams[k]).svg)]
        else before
  {
    hide Token, Short;
  }

  lemma {:induction false} SlotsCount(diagrams: seq<string>, render: Renderer, sum: Sum)
    ensures |SlotsFor(diagrams, render, sum)| == |Drawn(diagrams, render, |diagrams|)|
  {
    if diagrams != [] {
      SlotsCount(diagrams[..|diagrams| - 1], render, sum);
      SlotsSnoc(diagrams, render, sum);
      DrawnSnoc(diagrams, render);
      hide SlotsFor, Drawn, Token, Short;
    } else {
      assert Drawn(diagrams, render, 0) == {};
    }
  }

  // A token: the number of its slot, and the first eight bytes of its diagram's checksum
  lemma {:induction false} TokenIs(i: nat, sum: Sum, diagram: string)
    ensures Token(i, Short(sum, diagram, 8)) == "codepuke-mermaid-" + Decimal(i) + "-" + sum(diagram)[..16]
  {
    hide Decimal;
  }

  // The k-th diagram, when it is drawn, has the slot behind those of the diagrams drawn before it.
  lemma {:induction false} SlotOfDiagram(diagrams: seq<string>, render: Renderer, sum: Sum, k: nat)
    requires k < |diagrams| && render(k, diagrams[k]).Svg?
    ensures var j, slots := |Drawn(diagrams, render, k)|, SlotsFor(diagrams, render, sum);
      && |SlotsFor(diagrams[..k], render, sum)| == j < |slots|
      && slots[j] == Slot(Token(j, Short(sum, diagrams[k], 8)), render(k, diagrams[k]).svg)
    decreases |diagrams|
  {
    hide SlotsFor, Drawn, Token, Short;
    var n := |diagrams| - 1;
    SlotsSnoc(diagrams, render, sum);
    if k < n {
      assert diagrams[..n][..k] == diagrams[..k];
      DrawnPrefix(diagrams, render, n, k);
      SlotOfDiagram(diagrams[..n], render, sum, k);
    } else {
      SlotsCount(diagrams[..k], render, sum);
      DrawnPrefix(diagrams, render, k, k);
    }
  }

  // The fences are the code blocks in the language mermaid; every other node stays.
  lemma {:induction false} OtherNodesStay(doc: seq<Node>, render: Renderer, sum: Sum, i: nat)
    requires i < |doc|
    ensures var fences := FencesIn(doc, |doc|);
      && AreFences(doc, fences)
      && (i in fences <==> doc[i].Fence? && doc[i].language == "mermaid")
      && (i !in fences ==> DocAfter(doc, fences, render, sum, |fences|)[i] == doc[i])
  {
    hide DocAfter;
    var fences := FencesIn(doc, |doc|);
    FencesAreFences(doc, |doc|);
    if i !in fences {
      LaterFencesKept(doc, fences, render, sum, |fences|, i);
    }
  }

  lemma {:induction false} RenderedFenceStays(doc: seq<Node>, fences: seq<nat>, render: Renderer, sum: Sum, k: nat,
                                              n: nat)
    requires AreFences(doc, fences) && k < n <= |fences|
    ensures DocAfter(doc, fences, render, sum, n)[fences[k]] == DocAfter(doc, fences, render, sum, k + 1)[fences[k]]
    decreases n
  {
    if k + 1 < n {
      hide Token, SlotsFor, Short;
      assert fences[k] < fences[n - 1];
      RenderedFenceStays(doc, fences, render, sum, k, n - 1);
    }
  }

  // The fence of the k-th diagram, when it is drawn, is the paragraph of its slot's token; one that
  // is not drawn stays.
  lemma {:induction false} FenceRendered(doc: seq<Node>, fences: seq<nat>, render: Renderer, sum: Sum, k: nat)
    requires AreFences(doc, fences) && k < |fences|
    ensures var diagrams, after := DiagramsOf(doc, fences), DocAfter(doc, fences, render, sum, |fences|);
      && |diagrams| == |fences| && diagrams[k] == doc[fences[k]].diagram
      && after[fences[k]] ==
        if render(k, diagrams[k]).Svg? then Paragraph(Token(|Drawn(diagrams, render, k)|, Short(sum, diagrams[k], 8)))
        else doc[fences[k]]
  {
    var diagrams := DiagramsOf(doc, fences);
    hide SlotsFor, Drawn, Token, Short, DocAfter;
    RenderedFenceStays(doc, fences, render, sum, k, |fences|);
    OneMoreFence(doc, fences, render, sum, k);
    LaterFencesKept(doc, fences, render, sum, k, fences[k]);
    if render(k, diagrams[k]).Svg? {
      SlotOfDiagram(diagrams, render, sum, k);
    }
  }

  lemma {:induction false} SlotsNumbered(diagrams: seq<string>, render: Renderer, sum: Sum, i: nat) returns (h: string)
    requires i < |SlotsFor(diagrams, render, sum)|
    ensures IsShortHash(h) && SlotsFor(diagrams, render, sum)[i].token == Token(i, h)
  {
    var k := |diagrams| - 1;
    if i < |SlotsFor(diagrams[..k], render, sum)| {
      h := SlotsNumbered(diagrams[..k], render, sum, i);
    } else {
      h := Short(sum, diagrams[k], 8);
    }
  }

  // The tokens of one document are distinct, and none is part of another.
  lemma {:induction false} AllocatedTokensOk(diagrams: seq<string>, render: Renderer, sum: Sum)
    ensures TokensOk(SlotsFor(diagrams, render, sum)) && Distinct(SlotsFor(diagrams, render, sum))
  {
    hide Token, IsToken, SlotsFor, IsShortHash;
    var slots := SlotsFor(diagrams, render, sum);
    forall i: nat | i < |slots|
      ensures IsToken(slots[i].token)
    {
      var h := SlotsNumbered(diagrams, render, sum, i);
      TokenIsToken(i, h);
    }
    forall i: nat, j: nat | i < |slots| && j < |slots| && i != j
      ensures !Occurs(slots[i].token, slots[j].token) && slots[i] != slots[j]
    {
      var g := SlotsNumbered(diagrams, render, sum, i);
      var h := SlotsNumbered(diagrams, render, sum, j);
      TokensNotNested(i, g, j, h);
      assert At(slots[j].token, 0, slots[j].token);
    }
    forall s, t | s in slots && t in slots && s != t
      ensures !Occurs(s.token, t.token)
    {
      var i :| 0 <= i < |slots| && slots[i] == s;
      var j :| 0 <= j < |slots| && slots[j] == t;
    }
  }

  // On a page where each token of the document stands once and in the paragraph it was written
  // in, and no diagram holds a token, the loop substitutes all diagrams at once, in any order.
  lemma {:induction false} DocumentSpliced(diagrams: seq<string>, render: Renderer, sum: Sum, text: string,
                                           slots': seq<Slot>)
    requires var slots := SlotsFor(diagrams, render, sum);
      && SvgsOk(slots) && Once(text, slots) && InParagraphs(text, slots)
      && forall s :: s in slots <==> s in slots'
    ensures var slots := SlotsFor(diagrams, render, sum);
      Splice.Splice(text, slots) == Splice.Splice(text, slots') == Substitute(text, slots) && NoneLost(text, slots)
  {
    AllocatedTokensOk(diagrams, render, sum);
    ParagraphsSplice(text, SlotsFor(diagrams, render, sum), slots');
  }

  // ---------- Overlapping tokens ----------

  // The text of two tokens that share a letter, and their slots
  function SharedText(g: string, h: string): string {
    Token(0, g) + Token(1, h)[1..]
  }

  function TwoSlots(g: string, h: string, svg: string, svg': string): seq<Slot> {
    [Slot(Token(0, g), svg), Slot(Token(1, h), svg')]
  }

  // When the hash of the first token ends in the letter the second starts with, the two can share
  // it: everything else the splice needs holds, but replacing the first token destroys the second,
  // and its diagram is lost.
  lemma {:induction false} OverlapLosesDiagram(g: string, h: string, svg: string, svg': string)
    requires IsShortHash(g) && IsShortHash(h) && g[15] == 'c' && SvgsOk(TwoSlots(g, h, svg, svg'))
    ensures var text, slots := SharedText(g, h), TwoSlots(g, h, svg, svg');
      TokensOk(slots) && Distinct(slots) && Once(text, slots) && !NoneLost(text, slots)
  {
    var s, t, text, slots := Token(0, g), Token(1, h), SharedText(g, h), TwoSlots(g, h, svg, svg');
    TokenIsToken(0, g);
    TokenIsToken(1, h);
    TokensNotNested(0, g, 1, h);
    TokensNotNested(1, h, 0, g);
    assert At(s, 0, s);
    SharedPlaces(g, h);
    assert At(text, |s| - 1, t);
    hide Token, At, IsToken;
    assert slots[1] in slots && slots[0] in slots;
    SecondLost(s, t, svg, svg');
  }

  // Each of the two tokens is there once.
  lemma {:induction false} SharedPlaces(g: string, h: string)
    requires IsShortHash(g) && IsShortHash(h) && g[15] == 'c'
    ensures var text := SharedText(g, h);
      && (forall p :: At(text, p, Token(0, g)) <==> p == 0)
      && (forall p :: At(text, p, Token(1, h)) <==> p == |Token(0, g)| - 1)
  {
    var s, t, text := Token(0, g), Token(1, h), SharedText(g, h);
    var n := |s|;
    TokenIsToken(0, g);
    TokenIsToken(1, h);
    TokenChars(0, g, n - 1);
    assert text == s[..n - 1] + t;
    assert text[0..n] == s && text[n - 1..n - 1 + |t|] == t;
    assert At(text, 0, s) && At(text, n - 1, t);
    forall p
      ensures At(text, p, s) || At(text, p, t) ==> p == 0 || p == n - 1
    {
      if At(text, p, s) || At(text, p, t) {
        var u := if At(text, p, s) then s else t;
        AtChar(text, p, u, 1);
        SharedO(g, h, p + 1);
      }
    }
    TokensNotNested(0, g, 1, h);
    TokensNotNested(1, h, 0, g);
    if At(text, n - 1, s) {
      SamePlace(text, n - 1, s, t);
    }
    if At(text, 0, t) {
      SamePlace(text, 0, s, t);
    }
  }

  lemma {:induction false} SharedO(g: string, h: string, k: nat)
    requires IsShortHash(g) && IsShortHash(h) && k < |SharedText(g, h)| && SharedText(g, h)[k] == 'o'
    ensures k == 1 || k == |Token(0, g)|
  {
    var n := |Token(0, g)|;
    if k < n {
      OnlyOneO(0, g, k);
    } else {
      OnlyOneO(1, h, k - n + 1);
    }
  }

  lemma {:induction false} SecondLost(s: string, t: string, svg: string, svg': string)
    requires IsToken(s) && IsToken(t) && !Occurs(svg, t)
    requires Occurs(s + t[1..], t)
    ensures !NoneLost(s + t[1..], [Slot(s, svg), Slot(t, svg')])
  {
    var text, slots := s + t[1..], [Slot(s, svg), Slot(t, svg')];
    FirstConsumed(s, t, svg);
    forall q
      ensures !At("" + Figure(svg) + t[1..], q, t)
    {
      if At("" + Figure(svg) + t[1..], q, t) {
        OccursAfter("", s, t[1..], svg, t, q);
      }
    }
    assert slots[..1] == [slots[0]] && slots[..1][1..] == [];
    assert Splice.Splice(text, slots[..1]) == SpliceOne(text, slots[0]);
    assert !Occurs(Splice.Splice(text, slots[..1]), slots[1].token);
  }

  lemma {:induction false} FirstConsumed(s: string, t: string, svg: string)
    requires IsToken(s) && IsToken(t)
    ensures SpliceOne(s + t[1..], Slot(s, svg)) == "" + Figure(svg) + t[1..]
  {
    var text := s + t[1..];
    IndexFinds(text, Wrapped(s));
    if Index(text, Wrapped(s)) >= 0 {
      WrappedChars(text, Index(text, Wrapped(s)), s);
    }
    assert Index(text, s) == 0;
  }
}
