/**
Slugs and unique ids (internal/content/slug.go).
*/
module Slug {
  import opened Text

  predicate IsAlnum(c: char) {
    'a' <= c <= 'z' || '0' <= c <= '9'
  }

  // Any lower-casing of single characters that leaves lower-case letters, digits and hyphens
  // alone. Unicode's case table is one; which one it is makes no difference here.
  type Lowering = f: char -> char | forall c :: IsSlugChar(c) ==> f(c) == c witness c => c

  function Lower(lower: Lowering, s: string): (r: string)
  {
    seq(|s|, i requires 0 <= i < |s| => lower(s[i]))
  }

  predicate IsSlugChar(c: char) {
    IsAlnum(c) || c == '-'
  }

  // [a-z0-9]+(-[a-z0-9]+)*, that is, no hyphen at either end and no two together
  ghost predicate IsSlug(s: string) {
    && s != "" && s[0] != '-' && s[|s| - 1] != '-'
    && (forall i :: 0 <= i < |s| ==> IsSlugChar(s[i]))
    && (forall i, j :: 0 <= i < |s| && i < j < |s| && j == i + 1 ==> s[i] != '-' || s[j] != '-')
  }

  function RunLength(s: string): (n: nat)
    ensures n <= |s|
  {
    if s != "" && IsAlnum(s[0]) then 1 + RunLength(s[1..]) else 0
  }

  // The maximal runs of letters and digits
  function Runs(s: string): seq<string>
    decreases |s|
  {
    if s == "" then []
    else if !IsAlnum(s[0]) then Runs(s[1..])
    else
      var n := RunLength(s);
      [s[..n]] + Runs(s[n..])
  }

  function Hyphenated(s: string): string {
    Join(Runs(s), '-')
  }

  // The slug of a text: the runs of its lower-cased form, joined by single hyphens
  function SlugOf(lower: Lowering, s: string): string {
    Hyphenated(Lower(lower, s))
  }

  // ---------- Slugs one character at a time ----------

  lemma {:induction false} RunLengthSnoc(s: string, c: char)
    ensures RunLength(s + [c]) ==
      if RunLength(s) < |s| then RunLength(s) else if IsAlnum(c) then |s| + 1 else |s|
  {
    if s == "" {
      assert s + [c] == [c];
    } else {
      assert (s + [c])[1..] == s[1..] + [c];
      if IsAlnum(s[0]) {
        RunLengthSnoc(s[1..], c);
      }
    }
  }

  lemma {:induction false} RunLengthAll(s: string)
    ensures forall i :: 0 <= i < RunLength(s) ==> IsAlnum(s[i])
    ensures RunLength(s) < |s| ==> !IsAlnum(s[RunLength(s)])
  {
    if s != "" && IsAlnum(s[0]) {
      RunLengthAll(s[1..]);
    }
  }

  predicate EndsInRun(s: string) {
    s != "" && IsAlnum(s[|s| - 1])
  }

  lemma {:induction false} WholeRun(s: string)
    requires s != "" && RunLength(s) == |s|
    ensures Runs(s) == [s]
  {
    assert s[..|s|] == s && Runs(s[|s|..]) == [];
  }

  lemma {:induction false} RunThenGap(s: string, c: char)
    requires s != "" && RunLength(s) == |s| && !IsAlnum(c)
    ensures Runs(s + [c]) == [s]
  {
    var t := s + [c];
    RunLengthSnoc(s, c);
    assert t[..|s|] == s && t[|s|..] == [c];
    assert Runs([c]) == Runs([c][1..]) == [];
  }

  lemma {:induction false} RunsSnoc(s: string, c: char)
    ensures !IsAlnum(c) ==> Runs(s + [c]) == Runs(s)
    ensures EndsInRun(s) ==> Runs(s) != []
    ensures IsAlnum(c) && EndsInRun(s) ==>
      Runs(s + [c]) == Runs(s)[..|Runs(s)| - 1] + [Runs(s)[|Runs(s)| - 1] + [c]]
    ensures IsAlnum(c) && !EndsInRun(s) ==> Runs(s + [c]) == Runs(s) + [[c]]
    decreases |s|
  {
    var t := s + [c];
    if s == "" {
      assert t == [c];
      if IsAlnum(c) {
        assert RunLength(t) == 1 && t[..1] == [c] && Runs(t[1..]) == [];
      }
    } else if !IsAlnum(s[0]) {
      assert t[1..] == s[1..] + [c];
      RunsSnoc(s[1..], c);
    } else {
      var n := RunLength(s);
      RunLengthSnoc(s, c);
      RunLengthAll(s);
      if n < |s| {
        assert t[..n] == s[..n] && t[n..] == s[n..] + [c];
        RunsSnoc(s[n..], c);
      } else {
        WholeRun(s);
        if IsAlnum(c) {
          WholeRun(t);
        } else {
          RunThenGap(s, c);
        }
      }
    }
  }

  lemma {:induction false} RunsNonEmpty(s: string)
    ensures forall r <- Runs(s) :: r != ""
    decreases |s|
  {
    if s != "" {
      if IsAlnum(s[0]) {
        RunsNonEmpty(s[RunLength(s)..]);
      } else {
        RunsNonEmpty(s[1..]);
      }
    }
  }

  lemma {:induction false} JoinSnoc(parts: seq<string>, p: string, sep: char)
    requires parts != []
    ensures Join(parts + [p], sep) == Join(parts, sep) + [sep] + p
  {
    if |parts| > 1 {
      assert (parts + [p])[1..] == parts[1..] + [p];
      JoinSnoc(parts[1..], p, sep);
    }
  }

  lemma {:induction false} JoinLast(parts: seq<string>, p: string, c: char, sep: char)
    ensures Join(parts + [p + [c]], sep) == Join(parts + [p], sep) + [c]
  {
    if parts != [] {
      JoinSnoc(parts, p, sep);
      JoinSnoc(parts, p + [c], sep);
    }
  }

  lemma {:induction false} HyphenatedSnoc(s: string, c: char)
    ensures Hyphenated(s + [c]) ==
      if !IsAlnum(c) then Hyphenated(s)
      else if Hyphenated(s) == "" then [c]
      else if EndsInRun(s) then Hyphenated(s) + [c]
      else Hyphenated(s) + "-" + [c]
    ensures EndsInRun(s) ==> Hyphenated(s) != ""
  {
    RunsSnoc(s, c);
    RunsNonEmpty(s);
    var runs := Runs(s);
    if runs != [] {
      assert runs[0] in runs;
      assert Hyphenated(s) != "";
      JoinSnoc(runs, [c], '-');
      var front, last := runs[..|runs| - 1], runs[|runs| - 1];
      assert runs == front + [last];
      JoinLast(front, last, c, '-');
    }
  }

  method Slugify(lower: Lowering, s: string) returns (slug: string)
    ensures slug == SlugOf(lower, s)
  {
    var lowered := Lower(lower, s);
    slug := "";
    var pendingHyphen := false;
    for i := 0 to |lowered|
      invariant slug == Hyphenated(lowered[..i])
      invariant pendingHyphen <==> slug != "" && !EndsInRun(lowered[..i])
    {
      var r := lowered[i];
      assert lowered[..i + 1] == lowered[..i] + [r];
      HyphenatedSnoc(lowered[..i], r);
      if !IsAlnum(r) {
        pendingHyphen := |slug| > 0;
        continue;
      }
      if pendingHyphen {
        slug := slug + "-";
        pendingHyphen := false;
      }
      slug := slug + [r];
    }
    assert lowered[..|lowered|] == lowered;
  }

  // ---------- What slugs look like ----------

  lemma {:induction false} HyphenatedIsSlug(s: string)
    ensures Hyphenated(s) == "" || IsSlug(Hyphenated(s))
  {
    if s != "" {
      var before, c := s[..|s| - 1], s[|s| - 1];
      assert s == before + [c];
      HyphenatedIsSlug(before);
      HyphenatedSnoc(before, c);
      var h := Hyphenated(before);
      if h != "" && IsAlnum(c) {
        assert IsSlug(h + [c]);
        assert IsSlug(h + "-" + [c]);
      }
    }
  }

  lemma {:induction false} SlugPrefix(s: string, i: nat)
    requires IsSlug(s) && i <= |s|
    ensures Hyphenated(s[..i]) == if i > 0 && s[i - 1] == '-' then s[..i - 1] else s[..i]
  {
    if i > 0 {
      SlugPrefix(s, i - 1);
      assert s[..i] == s[..i - 1] + [s[i - 1]];
      HyphenatedSnoc(s[..i - 1], s[i - 1]);
    }
  }

  lemma {:induction false} HyphenatedFixesSlugs(s: string)
    requires IsSlug(s)
    ensures Hyphenated(s) == s
  {
    SlugPrefix(s, |s|);
    assert s[..|s|] == s;
  }

  lemma {:induction false} LowerFixesSlugs(lower: Lowering, s: string)
    requires IsSlug(s)
    ensures Lower(lower, s) == s
  {
  }

  // A slug is empty or slug-shaped; the non-empty texts that are their own slug are exactly the
  // slug-shaped ones; slugifying twice is slugifying once.
  lemma {:induction false} SlugShape(lower: Lowering, s: string)
    ensures SlugOf(lower, s) == "" || IsSlug(SlugOf(lower, s))
    ensures s != "" ==> (SlugOf(lower, s) == s <==> IsSlug(s))
    ensures SlugOf(lower, SlugOf(lower, s)) == SlugOf(lower, s)
  {
    var slug := SlugOf(lower, s);
    HyphenatedIsSlug(Lower(lower, s));
    if IsSlug(s) {
      LowerFixesSlugs(lower, s);
      HyphenatedFixesSlugs(s);
    }
    if IsSlug(slug) {
      LowerFixesSlugs(lower, slug);
      HyphenatedFixesSlugs(slug);
    } else {
      assert Lower(lower, "") == "";
    }
  }

  // ---------- Numbers in decimal ----------

  function Digit(d: nat): char
    requires d < 10
  {
    ('0' as int + d) as char
  }

  function Decimal(n: nat): (s: string)
    ensures s != ""
  {
    if n < 10 then [Digit(n)] else Decimal(n / 10) + [Digit(n % 10)]
  }

  function DigitValue(c: char): int {
    c as int - '0' as int
  }

  function Value(s: string): int {
    if s == "" then 0 else 10 * Value(s[..|s| - 1]) + DigitValue(s[|s| - 1])
  }

  lemma {:induction false} ValueOfDecimal(n: nat)
    ensures Value(Decimal(n)) == n
  {
    if n >= 10 {
      ValueOfDecimal(n / 10);
      assert Decimal(n)[..|Decimal(n)| - 1] == Decimal(n / 10);
    } else {
      assert Value("") == 0;
      assert Decimal(n)[..0] == "";
    }
  }

  lemma {:induction false} DecimalInjective(m: nat, n: nat)
    requires Decimal(m) == Decimal(n)
    ensures m == n
  {
    ValueOfDecimal(m);
    ValueOfDecimal(n);
  }

  lemma {:induction false} DecimalIsAlnum(n: nat)
    ensures forall c <- Decimal(n) :: '0' <= c <= '9'
  {
    if n >= 10 {
      DecimalIsAlnum(n / 10);
    }
  }

  // ---------- Unique ids ----------

  function Suffixed(base: string, i: nat): string {
    base + "-" + Decimal(i)
  }

  lemma {:induction false} SuffixedInjective(base: string, i: nat, j: nat)
    requires Suffixed(base, i) == Suffixed(base, j)
    ensures i == j
  {
    assert Suffixed(base, i)[|base| + 1..] == Decimal(i);
    assert Suffixed(base, j)[|base| + 1..] == Decimal(j);
    DecimalInjective(i, j);
  }

  // base and base-2 up to base-(i-1) are all taken
  ghost predicate TakenBelow(seen: set<string>, base: string, i: nat) {
    base in seen && forall j :: 2 <= j < i ==> Suffixed(base, j) in seen
  }

  // Pigeonhole: that many distinct taken ids need as many seen ids.
  lemma {:induction false} TakenBelowBound(seen: set<string>, base: string, i: nat)
    requires i >= 2 && TakenBelow(seen, base, i)
    ensures i - 1 <= |seen|
    decreases i
  {
    if i == 2 {
      assert {base} <= seen;
      assert |seen - {base}| == |seen| - 1;
    } else {
      var last := Suffixed(base, i - 1);
      forall j | 2 <= j < i - 1
        ensures Suffixed(base, j) != last
      {
        if Suffixed(base, j) == last {
          SuffixedInjective(base, j, i - 1);
        }
      }
      TakenBelowBound(seen - {last}, base, i - 1);
    }
  }

  ghost function FirstFree(seen: set<string>, base: string, i: nat): string
    requires i >= 2 && TakenBelow(seen, base, i)
    decreases |seen| + 1 - i
  {
    if Suffixed(base, i) !in seen then Suffixed(base, i)
    else
      TakenBelowBound(seen, base, i + 1);
      FirstFree(seen, base, i + 1)
  }

  function BaseOf(base: string): string {
    if base == "" then "section" else base
  }

  // The id issued for a base when some are taken
  ghost function FreshId(seen: set<string>, base: string): string {
    if BaseOf(base) !in seen then BaseOf(base) else FirstFree(seen, BaseOf(base), 2)
  }

  lemma {:induction false} FirstFreeIsLeast(seen: set<string>, base: string, i: nat) returns (k: nat)
    requires i >= 2 && TakenBelow(seen, base, i)
    ensures i <= k <= |seen| + 1 && TakenBelow(seen, base, k)
    ensures FirstFree(seen, base, i) == Suffixed(base, k) && Suffixed(base, k) !in seen
    decreases |seen| + 1 - i
  {
    TakenBelowBound(seen, base, i);
    if Suffixed(base, i) !in seen {
      k := i;
    } else {
      TakenBelowBound(seen, base, i + 1);
      k := FirstFreeIsLeast(seen, base, i + 1);
    }
  }

  // The issued id is new: the base itself when free, else the base with the least free suffix,
  // which is at most one more than the number of ids seen.
  lemma {:induction false} FreshIdIsLeast(seen: set<string>, base: string)
    ensures FreshId(seen, base) !in seen
    ensures BaseOf(base) !in seen ==> FreshId(seen, base) == BaseOf(base)
    ensures BaseOf(base) in seen ==>
      exists k | 2 <= k <= |seen| + 1 ::
        TakenBelow(seen, BaseOf(base), k) && FreshId(seen, base) == Suffixed(BaseOf(base), k)
  {
    if BaseOf(base) in seen {
      var k := FirstFreeIsLeast(seen, BaseOf(base), 2);
    }
  }

  lemma {:induction false} SuffixedIsSlug(base: string, i: nat)
    requires IsSlug(base)
    ensures IsSlug(Suffixed(base, i))
  {
    DecimalIsAlnum(i);
    var s, d := Suffixed(base, i), Decimal(i);
    forall k | |base| < k < |s|
      ensures IsAlnum(s[k])
    {
      assert s[k] == d[k - |base| - 1] && s[k] in d;
    }
  }

  // Ids derived from slugs are slugs.
  lemma {:induction false} FreshIdIsSlug(seen: set<string>, base: string)
    requires base == "" || IsSlug(base)
    ensures IsSlug(FreshId(seen, base))
  {
    if BaseOf(base) in seen {
      var k := FirstFreeIsLeast(seen, BaseOf(base), 2);
      SuffixedIsSlug(BaseOf(base), k);
    }
  }

  class IdRegistry {
    var seen: set<string>

    constructor ()
      ensures seen == {}
    {
      seen := {};
    }

    method Dedupe(base: string) returns (id: string)
      modifies this
      ensures id == FreshId(old(seen), base)
      ensures seen == old(seen) + {id}
    {
      var b := if base == "" then "section" else base;
      if b !in seen {
        seen := seen + {b};
        return b;
      }
      var i := 2;
      while true
        invariant seen == old(seen)
        invariant i >= 2 && TakenBelow(seen, b, i)
        invariant FirstFree(seen, b, i) == FirstFree(seen, b, 2)
        decreases |seen| + 1 - i
      {
        TakenBelowBound(seen, b, i);
        var candidate := Suffixed(b, i);
        if candidate !in seen {
          seen := seen + {candidate};
          return candidate;
        }
        TakenBelowBound(seen, b, i + 1);
        i := i + 1;
      }
    }
  }
}
