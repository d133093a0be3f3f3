/**
Heading anchors (internal/content/anchors.go): every heading of a document gets an id, every h2
also a chip labelled with its ordinal in hexadecimal.
*/
module Anchors {
  import opened Text
  import opened Order
  import opened Slug

  datatype Inline =
    | PlainText(value: string)
    | Literal(value: string)
    | Chip(id: string, offset: string)
    | Nested(children: seq<Inline>)

  // The document tree below the root. Headings are the nodes the transformer edits.
  datatype Block =
    | HeadingBlock(heading: Heading)
    | Container(blocks: seq<Block>)
    | OtherBlock

  class Heading {
    const level: nat
    var id: Option<string>
    var children: seq<Inline>

    constructor (level: nat, id: Option<string>, children: seq<Inline>)
      ensures this.level == level && this.id == id && this.children == children
    {
      this.level, this.id, this.children := level, id, children;
    }
  }

  function TextOf(inlines: seq<Inline>): string {
    if inlines == [] then ""
    else
      (match inlines[0]
       case PlainText(value) => value
       case Literal(value) => value
       case Chip(_, _) => ""
       case Nested(children) => TextOf(children)) + TextOf(inlines[1..])
  }

  // ---------- Labels ----------

  function HexDigit(d: nat): char
    requires d < 16
  {
    if d < 10 then Digit(d) else ('a' as int + d - 10) as char
  }

  function Hex(n: nat): (s: string)
    ensures s != "" && (n >= 16 ==> |s| >= 2)
  {
    if n < 16 then [HexDigit(n)] else Hex(n / 16) + [HexDigit(n % 16)]
  }

  // fmt.Sprintf("0x%02x", n)
  function Label(n: nat): string {
    "0x" + (if |Hex(n)| < 2 then "0" + Hex(n) else Hex(n))
  }

  function HexValue(s: string): int {
    if s == "" then 0
    else
      var c := s[|s| - 1];
      16 * HexValue(s[..|s| - 1]) + (if 'a' <= c then c as int - 'a' as int + 10 else DigitValue(c))
  }

  lemma {:induction false} HexValueOfHex(n: nat)
    ensures HexValue(Hex(n)) == n
  {
    if n >= 16 {
      HexValueOfHex(n / 16);
      assert Hex(n)[..|Hex(n)| - 1] == Hex(n / 16);
    } else {
      assert Hex(n)[..0] == "" && HexValue("") == 0;
    }
  }

  lemma {:induction false} LabelValue(n: nat)
    ensures HexValue(Label(n)[2..]) == n
  {
    HexValueOfHex(n);
    if |Hex(n)| < 2 {
      assert n < 16;
      var s := "0" + Hex(n);
      assert Label(n)[2..] == s;
      assert s[..1] == "0" && "0"[..0] == "" && HexValue("0") == 0;
    } else {
      assert Label(n)[2..] == Hex(n);
    }
  }

  // Labels are hexadecimal, of two digits at least.
  lemma {:induction false} LabelsWritten()
    ensures Label(1) == "0x01" && Label(10) == "0x0a" && Label(31) == "0x1f" && Label(256) == "0x100"
  {
    assert Hex(1) == "1" && Hex(10) == "a" && Hex(31) == "1f";
    assert Hex(16) == "10";
  }

  // ---------- Text ----------

  // The text of inlines is that of their leaves in order, however they are nested; chips have none.
  lemma {:induction false} TextOfParts(a: seq<Inline>, b: seq<Inline>, value: string, id: string, offset: string)
    ensures TextOf(a + b) == TextOf(a) + TextOf(b)
    ensures TextOf([Nested(a)]) == TextOf(a)
    ensures TextOf([PlainText(value)]) == value && TextOf([Literal(value)]) == value && TextOf([Chip(id, offset)]) == ""
  {
    TextAppend(a, b);
    TextOfOne(Nested(a));
    TextOfOne(PlainText(value));
    TextOfOne(Literal(value));
    TextOfOne(Chip(id, offset));
  }

  lemma {:induction false} TextOfOne(i: Inline)
    ensures TextOf([i]) == match i
      case PlainText(value) => value
      case Literal(value) => value
      case Chip(_, _) => ""
      case Nested(children) => TextOf(children)
  {
    assert [i][1..] == [];
  }

  lemma {:induction false} TextAppend(a: seq<Inline>, b: seq<Inline>)
    ensures TextOf(a + b) == TextOf(a) + TextOf(b)
    decreases |a|
  {
    if a == [] {
      assert a + b == b;
    } else {
      assert (a + b)[1..] == a[1..] + b;
      TextAppend(a[1..], b);
    }
  }

  // ---------- Which anchors a document gets ----------

  // What the transformer reads of a heading; an empty explicit id is none
  datatype HeadingSpec = HeadingSpec(level: nat, explicit: string, text: string)
  datatype Anchor = Anchor(id: string, offset: Option<string>)

  ghost function IdFor(lower: Lowering, seen: set<string>, h: HeadingSpec): string {
    if h.explicit != "" then h.explicit else FreshId(seen, SlugOf(lower, h.text))
  }

  function Bump(ordinal: nat, h: HeadingSpec): nat {
    if h.level == 2 then ordinal + 1 else ordinal
  }

  ghost function OrdinalAfter(ordinal: nat, hs: seq<HeadingSpec>): nat
    decreases |hs|
  {
    if hs == [] then ordinal else OrdinalAfter(Bump(ordinal, hs[0]), hs[1..])
  }

  ghost function SeenAfter(lower: Lowering, seen: set<string>, hs: seq<HeadingSpec>): set<string>
    decreases |hs|
  {
    if hs == [] then seen else SeenAfter(lower, seen + {IdFor(lower, seen, hs[0])}, hs[1..])
  }

  // The anchors of headings in document order, given the ids seen and h2s counted before them
  ghost function Assign(lower: Lowering, seen: set<string>, ordinal: nat, hs: seq<HeadingSpec>): (r: seq<Anchor>)
    ensures |r| == |hs|
    decreases |hs|
  {
    if hs == [] then []
    else
      var id := IdFor(lower, seen, hs[0]);
      var ordinal' := Bump(ordinal, hs[0]);
      [Anchor(id, if hs[0].level == 2 then Some(Label(ordinal')) else None)]
        + Assign(lower, seen + {id}, ordinal', hs[1..])
  }

  lemma {:induction false} AssignConcat(lower: Lowering, seen: set<string>, ordinal: nat, a: seq<HeadingSpec>,
                                        b: seq<HeadingSpec>)
    ensures OrdinalAfter(ordinal, a + b) == OrdinalAfter(OrdinalAfter(ordinal, a), b)
    ensures SeenAfter(lower, seen, a + b) == SeenAfter(lower, SeenAfter(lower, seen, a), b)
    ensures Assign(lower, seen, ordinal, a + b) ==
      Assign(lower, seen, ordinal, a) + Assign(lower, SeenAfter(lower, seen, a), OrdinalAfter(ordinal, a), b)
    decreases |a|
  {
    if a == [] {
      assert a + b == b;
    } else {
      assert (a + b)[1..] == a[1..] + b;
      AssignConcat(lower, seen + {IdFor(lower, seen, a[0])}, Bump(ordinal, a[0]), a[1..], b);
    }
  }

  // ---------- The tree walk ----------

  function Headings(b: Block): seq<Heading> {
    match b
    case HeadingBlock(heading) => [heading]
    case Container(blocks) => HeadingsOf(blocks)
    case OtherBlock => []
  }

  function HeadingsOf(blocks: seq<Block>): seq<Heading> {
    if blocks == [] then [] else Headings(blocks[0]) + HeadingsOf(blocks[1..])
  }

  // Headings come in document order, and containers make no difference.
  lemma {:induction false} HeadingsInOrder(a: seq<Block>, b: seq<Block>, h: Heading)
    ensures HeadingsOf(a + b) == HeadingsOf(a) + HeadingsOf(b)
    ensures HeadingsOf([Container(a)]) == HeadingsOf(a)
    ensures HeadingsOf([HeadingBlock(h)]) == [h] && HeadingsOf([OtherBlock]) == []
    decreases |a|
  {
    assert [Container(a)][1..] == [] && [HeadingBlock(h)][1..] == [] && [OtherBlock][1..] == [];
    if a == [] {
      assert a + b == b;
    } else {
      assert (a + b)[1..] == a[1..] + b;
      HeadingsInOrder(a[1..], b, h);
    }
  }

  lemma {:induction false} HeadingsSplit(blocks: seq<Block>, hs: seq<Heading>, k: nat)
    requires blocks != [] && k <= |hs| && HeadingsOf(blocks) <= hs[k..]
    ensures var n := |Headings(blocks[0])|;
      && k + n <= |hs| && |HeadingsOf(blocks)| == n + |HeadingsOf(blocks[1..])|
      && Headings(blocks[0]) <= hs[k..] && HeadingsOf(blocks[1..]) <= hs[k + n..]
  {
    hide Headings;
    var n := |Headings(blocks[0])|;
    assert hs[k..][n..] == hs[k + n..];
    assert HeadingsOf(blocks)[n..] == HeadingsOf(blocks[1..]);
  }

  // explicitID
  function ExplicitId(id: Option<string>): string {
    match id
    case None => ""
    case Some(value) => value
  }

  ghost function SpecOf(h: Heading): HeadingSpec
    reads h
  {
    HeadingSpec(h.level, ExplicitId(h.id), TextOf(h.children))
  }

  ghost function SpecsOf(hs: seq<Heading>): (r: seq<HeadingSpec>)
    reads hs
    ensures |r| == |hs| && forall i :: 0 <= i < |hs| ==> r[i] == SpecOf(hs[i])
  {
    seq(|hs|, i requires 0 <= i < |hs| reads hs => SpecOf(hs[i]))
  }

  ghost function ChildrenOf(hs: seq<Heading>): (r: seq<seq<Inline>>)
    reads hs
    ensures |r| == |hs| && forall i :: 0 <= i < |hs| ==> r[i] == hs[i].children
  {
    seq(|hs|, i requires 0 <= i < |hs| reads hs => hs[i].children)
  }

  function WithChip(a: Anchor, children: seq<Inline>): seq<Inline> {
    match a.offset
    case None => children
    case Some(offset) => [Chip(a.id, offset)] + children
  }

  // The heading carries its anchor: the id as attribute, the chip as first child.
  ghost predicate IsAnchored(h: Heading, a: Anchor, children: seq<Inline>)
    reads h
  {
    h.id == Some(a.id) && h.children == WithChip(a, children)
  }

  lemma {:induction false} AfterOneMore(lower: Lowering, hs: seq<HeadingSpec>, k: nat)
    requires k < |hs|
    ensures SeenAfter(lower, {}, hs[..k + 1]) ==
      var seen := SeenAfter(lower, {}, hs[..k]); seen + {IdFor(lower, seen, hs[k])}
    ensures OrdinalAfter(0, hs[..k + 1]) == Bump(OrdinalAfter(0, hs[..k]), hs[k])
  {
    assert hs[..k + 1] == hs[..k] + [hs[k]];
    AssignConcat(lower, {}, 0, hs[..k], [hs[k]]);
    assert [hs[k]][1..] == [];
  }

  class HeadingAnchors {
    const lower: Lowering
    const ids: IdRegistry
    var ordinal: nat

    constructor (lower: Lowering)
      ensures this.lower == lower && ordinal == 0 && fresh(ids) && ids.seen == {}
    {
      this.lower, ordinal := lower, 0;
      ids := new IdRegistry();
    }

    // The walk has passed the first k headings of the document: those carry their anchors, the
    // others are as they were.
    ghost predicate Passed(hs: seq<Heading>, specs: seq<HeadingSpec>, children: seq<seq<Inline>>, k: nat)
      requires |hs| == |specs| == |children|
      reads this, ids, hs
    {
      && k <= |hs|
      && ids.seen == SeenAfter(lower, {}, specs[..k])
      && ordinal == OrdinalAfter(0, specs[..k])
      && (forall j :: 0 <= j < k ==> IsAnchored(hs[j], Assign(lower, {}, 0, specs)[j], children[j]))
      && (forall j :: k <= j < |hs| ==> SpecOf(hs[j]) == specs[j] && hs[j].children == children[j])
    }

    // The id and the chip of one heading
    method Give(h: Heading)
      modifies this, ids, h
      ensures var spec := old(SpecOf(h));
        var id := IdFor(lower, old(ids.seen), spec);
        && ids.seen == old(ids.seen) + {id} && ordinal == Bump(old(ordinal), spec)
        && IsAnchored(h, Anchor(id, if spec.level == 2 then Some(Label(ordinal)) else None), old(h.children))
    {
      var id := ExplicitId(h.id);
      if id != "" {
        ids.seen := ids.seen + {id};
      } else {
        var slug := Slugify(lower, TextOf(h.children));
        id := ids.Dedupe(slug);
        h.id := Some(id);
      }
      if h.level == 2 {
        ordinal := ordinal + 1;
        h.children := [Chip(id, Label(ordinal))] + h.children;
      }
    }

    method VisitHeading(h: Heading, ghost hs: seq<Heading>, ghost specs: seq<HeadingSpec>,
                        ghost children: seq<seq<Inline>>, ghost k: nat)
      requires |hs| == |specs| == |children| && Distinct(hs)
      requires Passed(hs, specs, children, k) && k < |hs| && hs[k] == h
      modifies this, ids, h
      ensures Passed(hs, specs, children, k + 1)
    {
      AssignAt(lower, {}, 0, specs, k);
      AfterOneMore(lower, specs, k);
      hide Assign, SeenAfter, OrdinalAfter, IdFor, Bump;
      assert forall j :: 0 <= j < |hs| && j != k ==> hs[j] != h;
      Give(h);
    }

    method VisitBlock(b: Block, ghost hs: seq<Heading>, ghost specs: seq<HeadingSpec>, ghost children: seq<seq<Inline>>,
                      ghost k: nat)
      requires |hs| == |specs| == |children| && Distinct(hs)
      requires Passed(hs, specs, children, k) && Headings(b) <= hs[k..]
      modifies this, ids, hs
      ensures Passed(hs, specs, children, k + |Headings(b)|)
      decreases b, 0
    {
      assert k <= |hs|;
      hide Passed;
      match b {
        case HeadingBlock(heading) =>
          assert hs[k..][0] == heading;
          VisitHeading(heading, hs, specs, children, k);
        case Container(blocks) =>
          VisitBlocks(blocks, hs, specs, children, k);
        case OtherBlock =>
      }
    }

    method VisitBlocks(blocks: seq<Block>, ghost hs: seq<Heading>, ghost specs: seq<HeadingSpec>,
                       ghost children: seq<seq<Inline>>, ghost k: nat)
      requires |hs| == |specs| == |children| && Distinct(hs)
      requires Passed(hs, specs, children, k) && HeadingsOf(blocks) <= hs[k..]
      modifies this, ids, hs
      ensures Passed(hs, specs, children, k + |HeadingsOf(blocks)|)
      decreases blocks, 1
    {
      assert k <= |hs|;
      hide Passed;
      if blocks != [] {
        HeadingsSplit(blocks, hs, k);
        hide Headings, HeadingsOf, Distinct;
        ghost var n := |Headings(blocks[0])|;
        VisitBlock(blocks[0], hs, specs, children, k);
        VisitBlocks(blocks[1..], hs, specs, children, k + n);
      }
    }
  }

  lemma {:induction false} NothingPassed(lower: Lowering, specs: seq<HeadingSpec>)
    requires specs == []
    ensures SeenAfter(lower, {}, specs) == {} && OrdinalAfter(0, specs) == 0
  {
  }

  // The ids of the first n headings
  ghost function IdsOf(hs: seq<Heading>, n: nat): set<string>
    requires n <= |hs|
    reads hs
  {
    set j: nat | j < n && hs[j].id.Some? :: hs[j].id.value
  }

  // The h2s among them
  ghost function H2sOf(hs: seq<Heading>, n: nat): set<nat>
    requires n <= |hs|
  {
    set j: nat | j < n && hs[j].level == 2
  }

  // What becomes of heading number k: an id it has stays, and without one it gets the id issued for
  // the slug of its text, given the ids of the headings before it. Exactly an h2 gets a chip in front
  // of its children, labelled with the number of h2s so far.
  ghost predicate IsTransformed(lower: Lowering, hs: seq<Heading>, k: nat, id: Option<string>, children: seq<Inline>)
    requires k < |hs|
    reads hs
  {
    && hs[k].id.Some?
    && hs[k].id.value == (
         if id.Some? && id.value != "" then id.value
         else FreshId(IdsOf(hs, k), SlugOf(lower, TextOf(children))))
    && hs[k].children ==
       (if hs[k].level == 2 then [Chip(hs[k].id.value, Label(|H2sOf(hs, k + 1)|))] else []) + children
  }

  // Each heading carries its anchor.
  ghost predicate AllAnchored(lower: Lowering, hs: seq<Heading>, specs: seq<HeadingSpec>, children: seq<seq<Inline>>)
    reads hs
  {
    && |specs| == |hs| == |children|
    && (forall k :: 0 <= k < |hs| ==> IsAnchored(hs[k], Assign(lower, {}, 0, specs)[k], children[k]))
    && (forall k :: 0 <= k < |hs| ==> specs[k].level == hs[k].level)
  }

  lemma {:induction false} IdsOfAnchored(lower: Lowering, hs: seq<Heading>, specs: seq<HeadingSpec>,
                                         children: seq<seq<Inline>>, k: nat)
    requires AllAnchored(lower, hs, specs, children) && k <= |hs|
    ensures IdsOf(hs, k) == IdsBefore(lower, specs, k)
  {
    hide Assign;
    var ids := Assign(lower, {}, 0, specs);
    assert forall j :: 0 <= j < k ==> hs[j].id == Some(ids[j].id);
    forall x
      ensures x in IdsOf(hs, k) <==> x in IdsBefore(lower, specs, k)
    {
      if x in IdsOf(hs, k) {
        var j: nat :| j < k && hs[j].id.Some? && hs[j].id.value == x;
        assert ids[j].id == x;
      }
      if x in IdsBefore(lower, specs, k) {
        var j :| 0 <= j < k && ids[j].id == x;
        assert hs[j].id.value == x;
      }
    }
  }

  lemma {:induction false} H2CountIs(hs: seq<Heading>, specs: seq<HeadingSpec>, n: nat)
    requires n <= |hs| == |specs| && forall k :: 0 <= k < |hs| ==> specs[k].level == hs[k].level
    ensures H2Count(specs[..n]) == |H2sOf(hs, n)|
  {
    if n == 0 {
      assert H2sOf(hs, 0) == {};
    } else {
      H2CountIs(hs, specs, n - 1);
      assert specs[..n][..n - 1] == specs[..n - 1];
      var before := H2sOf(hs, n - 1);
      assert n - 1 !in before;
      assert H2sOf(hs, n) == if hs[n - 1].level == 2 then before + {n - 1} else before;
    }
  }

  lemma {:induction false} HeadingTransformed(lower: Lowering, hs: seq<Heading>, specs: seq<HeadingSpec>,
                                              children: seq<seq<Inline>>, k: nat, id: Option<string>)
    requires AllAnchored(lower, hs, specs, children) && k < |hs|
    requires specs[k] == HeadingSpec(hs[k].level, ExplicitId(id), TextOf(children[k]))
    ensures IsTransformed(lower, hs, k, id, children[k])
  {
    hide Assign, IdsOf, IdsBefore, H2sOf;
    ExplicitIdKept(lower, specs, k);
    IdsOfAnchored(lower, hs, specs, children, k);
    H2CountIs(hs, specs, k + 1);
    LabelsCountH2s(lower, specs, k);
    if specs[k].explicit == "" {
      DerivedIdIs(lower, specs, k);
    }
    AnchoredIs(hs[k], Assign(lower, {}, 0, specs)[k], children[k]);
  }

  // Transform runs once per document, from nothing seen and nothing counted.
  method Transform(lower: Lowering, doc: seq<Block>)
    requires Distinct(HeadingsOf(doc)) // a tree holds each node once
    modifies HeadingsOf(doc)
    ensures var hs := HeadingsOf(doc);
      forall k :: 0 <= k < |hs| ==>
        IsAnchored(hs[k], Assign(lower, {}, 0, old(SpecsOf(hs)))[k], old(hs[k].children))
    ensures var hs := HeadingsOf(doc);
      forall k :: 0 <= k < |hs| ==>
        IsTransformed(lower, hs, k, old(hs[k].id), old(hs[k].children))
  {
    hide IsAnchored, Assign, HeadingsOf, Headings, Distinct, SeenAfter, OrdinalAfter;
    ghost var hs := HeadingsOf(doc);
    ghost var specs, children := SpecsOf(hs), ChildrenOf(hs);
    NothingPassed(lower, specs[..0]);
    var anchors := new HeadingAnchors(lower);
    assert hs[0..] == hs;
    anchors.VisitBlocks(doc, hs, specs, children, 0);
    assert AllAnchored(lower, hs, specs, children);
    hide AllAnchored, IsTransformed;
    forall k | 0 <= k < |hs|
      ensures IsTransformed(lower, hs, k, old(hs[k].id), children[k])
    {
      HeadingTransformed(lower, hs, specs, children, k, old(hs[k].id));
    }
  }

  lemma {:induction false} AnchoredIs(h: Heading, a: Anchor, children: seq<Inline>)
    requires IsAnchored(h, a, children)
    ensures h.id == Some(a.id)
    ensures a.offset.Some? ==> h.children == [Chip(h.id.value, a.offset.value)] + children
    ensures a.offset.None? ==> h.children == children
  {
  }

  // ---------- What the anchors promise ----------

  lemma {:induction false} SeenGrows(lower: Lowering, seen: set<string>, hs: seq<HeadingSpec>)
    ensures seen <= SeenAfter(lower, seen, hs)
    ensures forall k :: 0 <= k < |hs| ==> Assign(lower, seen, 0, hs)[k].id in SeenAfter(lower, seen, hs)
    decreases |hs|
  {
    if hs != [] {
      var id := IdFor(lower, seen, hs[0]);
      SeenGrows(lower, seen + {id}, hs[1..]);
      OrdinalIrrelevant(lower, seen + {id}, 0, Bump(0, hs[0]), hs[1..]);
    }
  }

  lemma {:induction false} OrdinalIrrelevant(lower: Lowering, seen: set<string>, m: nat, n: nat, hs: seq<HeadingSpec>)
    ensures forall k :: 0 <= k < |hs| ==> Assign(lower, seen, m, hs)[k].id == Assign(lower, seen, n, hs)[k].id
    decreases |hs|
  {
    if hs != [] {
      var id := IdFor(lower, seen, hs[0]);
      OrdinalIrrelevant(lower, seen + {id}, Bump(m, hs[0]), Bump(n, hs[0]), hs[1..]);
    }
  }

  // The k-th anchor in terms of what came before it
  lemma {:induction false} AssignAt(lower: Lowering, seen: set<string>, ordinal: nat, hs: seq<HeadingSpec>, k: nat)
    requires k < |hs|
    ensures Assign(lower, seen, ordinal, hs)[k].id == IdFor(lower, SeenAfter(lower, seen, hs[..k]), hs[k])
    ensures Assign(lower, seen, ordinal, hs)[k].offset ==
      if hs[k].level == 2 then Some(Label(OrdinalAfter(ordinal, hs[..k + 1]))) else None
    decreases k
  {
    if k > 0 {
      AssignAt(lower, seen + {IdFor(lower, seen, hs[0])}, Bump(ordinal, hs[0]), hs[1..], k - 1);
      assert hs[..k][1..] == hs[1..][..k - 1];
      assert hs[..k + 1][1..] == hs[1..][..k];
    } else {
      assert hs[..1][1..] == [] && hs[..0] == [];
    }
  }

  // Every derived id is a slug, so non-empty, and differs from every id issued earlier in the
  // document, derived or explicit.
  lemma {:induction false} DerivedIdsAreNew(lower: Lowering, hs: seq<HeadingSpec>, j: nat, k: nat)
    requires j < k < |hs| && hs[k].explicit == ""
    ensures IsSlug(Assign(lower, {}, 0, hs)[k].id)
    ensures Assign(lower, {}, 0, hs)[j].id != Assign(lower, {}, 0, hs)[k].id
  {
    var seen := SeenAfter(lower, {}, hs[..k]);
    AssignAt(lower, {}, 0, hs, k);
    SlugShape(lower, hs[k].text);
    FreshIdIsSlug(seen, SlugOf(lower, hs[k].text));
    FreshIdIsLeast(seen, SlugOf(lower, hs[k].text));
    AssignConcat(lower, {}, 0, hs[..k], hs[k..]);
    assert hs[..k] + hs[k..] == hs;
    SeenGrows(lower, {}, hs[..k]);
    assert Assign(lower, {}, 0, hs)[j] == Assign(lower, {}, 0, hs[..k])[j];
  }

  // An explicit id is kept, and there is a label exactly on an h2.
  lemma {:induction false} ExplicitIdKept(lower: Lowering, hs: seq<HeadingSpec>, k: nat)
    requires k < |hs|
    ensures hs[k].explicit != "" ==> Assign(lower, {}, 0, hs)[k].id == hs[k].explicit
    ensures Assign(lower, {}, 0, hs)[k].offset.Some? <==> hs[k].level == 2
  {
    AssignAt(lower, {}, 0, hs, k);
  }

  // The ids of the first k headings
  ghost function IdsBefore(lower: Lowering, hs: seq<HeadingSpec>, k: nat): set<string>
    requires k <= |hs|
  {
    set j | 0 <= j < k :: Assign(lower, {}, 0, hs)[j].id
  }

  lemma {:induction false} SeenIsIds(lower: Lowering, hs: seq<HeadingSpec>, k: nat)
    requires k <= |hs|
    ensures SeenAfter(lower, {}, hs[..k]) == IdsBefore(lower, hs, k)
  {
    if k == 0 {
      assert hs[..0] == [];
    } else {
      SeenIsIds(lower, hs, k - 1);
      AfterOneMore(lower, hs, k - 1);
      AssignAt(lower, {}, 0, hs, k - 1);
      hide Assign, SeenAfter, IdFor;
      assert IdsBefore(lower, hs, k) == IdsBefore(lower, hs, k - 1) + {Assign(lower, {}, 0, hs)[k - 1].id};
    }
  }

  // A heading without one gets the id issued for the slug of its text when the ids before it are taken.
  lemma {:induction false} DerivedIdIs(lower: Lowering, hs: seq<HeadingSpec>, k: nat)
    requires k < |hs| && hs[k].explicit == ""
    ensures Assign(lower, {}, 0, hs)[k].id == FreshId(IdsBefore(lower, hs, k), SlugOf(lower, hs[k].text))
  {
    AssignAt(lower, {}, 0, hs, k);
    SeenIsIds(lower, hs, k);
  }

  // Without explicit ids all ids are distinct.
  lemma {:induction false} IdsDistinct(lower: Lowering, hs: seq<HeadingSpec>)
    requires forall k :: 0 <= k < |hs| ==> hs[k].explicit == ""
    ensures forall j, k :: 0 <= j < k < |hs| ==> Assign(lower, {}, 0, hs)[j].id != Assign(lower, {}, 0, hs)[k].id
  {
    forall j: nat, k: nat | j < k < |hs|
      ensures Assign(lower, {}, 0, hs)[j].id != Assign(lower, {}, 0, hs)[k].id
    {
      DerivedIdsAreNew(lower, hs, j, k);
    }
  }

  ghost function H2Count(hs: seq<HeadingSpec>): nat {
    if hs == [] then 0 else H2Count(hs[..|hs| - 1]) + if hs[|hs| - 1].level == 2 then 1 else 0
  }

  lemma {:induction false} OrdinalCounts(ordinal: nat, hs: seq<HeadingSpec>)
    ensures OrdinalAfter(ordinal, hs) == ordinal + H2Count(hs)
  {
    if hs != [] {
      var before, last := hs[..|hs| - 1], [hs[|hs| - 1]];
      assert hs == before + last;
      OrdinalCounts(ordinal, before);
      AssignConcat(c => c, {}, ordinal, before, last);
    }
  }

  // A heading has a label exactly when it is an h2; the k-th h2 is labelled k.
  lemma {:induction false} LabelsCountH2s(lower: Lowering, hs: seq<HeadingSpec>, k: nat)
    requires k < |hs|
    ensures Assign(lower, {}, 0, hs)[k].offset ==
      if hs[k].level == 2 then Some(Label(H2Count(hs[..k + 1]))) else None
  {
    AssignAt(lower, {}, 0, hs, k);
    OrdinalCounts(0, hs[..k + 1]);
  }

  lemma {:induction false} H2CountGrows(hs: seq<HeadingSpec>, j: nat, k: nat)
    requires j <= k <= |hs|
    ensures H2Count(hs[..j]) <= H2Count(hs[..k])
  {
    if j < k {
      H2CountGrows(hs, j, k - 1);
      assert hs[..k][..k - 1] == hs[..k - 1];
    }
  }

  // No two h2s share a label.
  lemma {:induction false} LabelsDistinct(lower: Lowering, hs: seq<HeadingSpec>, j: nat, k: nat)
    requires j < k < |hs| && hs[j].level == 2 && hs[k].level == 2
    ensures Assign(lower, {}, 0, hs)[j].offset != Assign(lower, {}, 0, hs)[k].offset
  {
    LabelsCountH2s(lower, hs, j);
    LabelsCountH2s(lower, hs, k);
    H2CountGrows(hs, j + 1, k);
    assert hs[..k + 1][..k] == hs[..k];
    var m, n := H2Count(hs[..j + 1]), H2Count(hs[..k + 1]);
    LabelValue(m);
    LabelValue(n);
  }
}
