/**
Ordering: the byte order of strings (for UTF-8 the order of code points), and sorting with
Go's `slices` package.
*/
module Order {

  // strings.Compare(a, b) <= 0
  predicate StrLe(a: string, b: string) {
    a == "" || (b != "" && (a[0] < b[0] || (a[0] == b[0] && StrLe(a[1..], b[1..]))))
  }

  predicate StrLt(a: string, b: string) {
    StrLe(a, b) && a != b
  }

  lemma {:induction false} StrTotal(a: string, b: string)
    ensures StrLe(a, b) || StrLe(b, a)
    ensures StrLe(a, b) && StrLe(b, a) ==> a == b
  {
    if a != "" && b != "" && a[0] == b[0] {
      StrTotal(a[1..], b[1..]);
      assert a == [a[0]] + a[1..] && b == [b[0]] + b[1..];
    }
  }

  lemma {:induction false} StrTransitive(a: string, b: string, c: string)
    requires StrLe(a, b) && StrLe(b, c)
    ensures StrLe(a, c)
  {
    if a != "" && a[0] == b[0] && b[0] == c[0] {
      StrTransitive(a[1..], b[1..], c[1..]);
    }
  }

  // a is before b exactly when b goes on where a ends, or has the greater character at the first
  // place where they differ.
  lemma {:induction false} StrLeIs(a: string, b: string)
    ensures StrLe(a, b) <==> a <= b || exists k :: IsFirstSmaller(a, b, k)
  {
    if a != "" && b != "" {
      if a[0] == b[0] {
        StrLeIs(a[1..], b[1..]);
        assert a == [a[0]] + a[1..] && b == [b[0]] + b[1..];
        if k :| IsFirstSmaller(a[1..], b[1..], k) {
          assert IsFirstSmaller(a, b, k + 1);
        }
        if k :| IsFirstSmaller(a, b, k) {
          assert IsFirstSmaller(a[1..], b[1..], k - 1);
        }
      } else if a[0] < b[0] {
        assert IsFirstSmaller(a, b, 0);
      }
    }
  }

  ghost predicate IsFirstSmaller(a: string, b: string, k: int) {
    0 <= k < |a| && k < |b| && a[k] < b[k] && forall i :: 0 <= i < k ==> a[i] == b[i]
  }

  // ---------- Sorting ----------

  ghost predicate IsOrder<T(!new)>(le: (T, T) -> bool) {
    && (forall a, b :: le(a, b) || le(b, a))
    && (forall a, b, c :: le(a, b) && le(b, c) ==> le(a, c))
  }

  ghost predicate IsSorted<T>(xs: seq<T>, le: (T, T) -> bool) {
    forall i, j :: 0 <= i < j < |xs| ==> le(xs[i], xs[j])
  }

  function Insert<T>(x: T, xs: seq<T>, le: (T, T) -> bool): seq<T> {
    if xs == [] || le(xs[|xs| - 1], x) then xs + [x]
    else Insert(x, xs[..|xs| - 1], le) + [xs[|xs| - 1]]
  }

  function Sort<T>(xs: seq<T>, le: (T, T) -> bool): seq<T> {
    if xs == [] then [] else Insert(xs[|xs| - 1], Sort(xs[..|xs| - 1], le), le)
  }

  ghost predicate AllLe<T>(xs: seq<T>, x: T, le: (T, T) -> bool) {
    forall y <- xs :: le(y, x)
  }

  lemma {:induction false} SortedSnoc<T>(xs: seq<T>, x: T, le: (T, T) -> bool)
    requires IsSorted(xs, le) && AllLe(xs, x, le)
    ensures IsSorted(xs + [x], le) && multiset(xs + [x]) == multiset(xs) + multiset{x}
  {
    assert forall i :: 0 <= i < |xs| ==> (xs + [x])[i] == xs[i] && xs[i] in xs;
  }

  lemma {:induction false} AllBelowLast<T(!new)>(xs: seq<T>, x: T, le: (T, T) -> bool)
    requires IsOrder(le) && IsSorted(xs, le) && xs != [] && le(xs[|xs| - 1], x)
    ensures AllLe(xs, x, le)
  {
    forall i | 0 <= i < |xs|
      ensures le(xs[i], x)
    {
      assert i < |xs| - 1 ==> le(xs[i], xs[|xs| - 1]);
    }
  }

  lemma {:induction false} AllLeInserted<T>(xs: seq<T>, x: T, all: seq<T>, last: T, le: (T, T) -> bool)
    requires multiset(all) == multiset(xs) + multiset{x} && AllLe(xs, last, le) && le(x, last)
    ensures AllLe(all, last, le)
  {
    forall y | y in all
      ensures le(y, last)
    {
      assert y in multiset(all);
      assert y == x || y in multiset(xs);
    }
  }

  lemma {:induction false} SortedFront<T>(xs: seq<T>, le: (T, T) -> bool)
    requires xs != [] && IsSorted(xs, le)
    ensures IsSorted(xs[..|xs| - 1], le) && AllLe(xs[..|xs| - 1], xs[|xs| - 1], le)
  {
  }

  lemma {:induction false} InsertSorts<T(!new)>(x: T, xs: seq<T>, le: (T, T) -> bool)
    requires IsOrder(le) && IsSorted(xs, le)
    ensures IsSorted(Insert(x, xs, le), le) && multiset(Insert(x, xs, le)) == multiset(xs) + multiset{x}
  {
    hide IsSorted, AllLe;
    if xs == [] || le(xs[|xs| - 1], x) {
      if xs == [] {
        NothingBelow(x, le);
      } else {
        AllBelowLast(xs, x, le);
      }
      SortedSnoc(xs, x, le);
    } else {
      var before, last := xs[..|xs| - 1], xs[|xs| - 1];
      assert xs == before + [last];
      SortedFront(xs, le);
      InsertSorts(x, before, le);
      AllLeInserted(before, x, Insert(x, before, le), last, le);
      SortedSnoc(Insert(x, before, le), last, le);
    }
  }

  lemma {:induction false} NothingBelow<T>(x: T, le: (T, T) -> bool)
    ensures AllLe([], x, le)
  {
  }

  // Sorting gives a sorted permutation.
  lemma {:induction false} SortSorts<T(!new)>(xs: seq<T>, le: (T, T) -> bool)
    requires IsOrder(le)
    ensures IsSorted(Sort(xs, le), le) && multiset(Sort(xs, le)) == multiset(xs)
  {
    if xs != [] {
      var before, last := xs[..|xs| - 1], xs[|xs| - 1];
      assert xs == before + [last];
      SortSorts(before, le);
      InsertSorts(last, Sort(before, le), le);
    }
  }

  ghost predicate NoneEquivalent<T>(xs: seq<T>, le: (T, T) -> bool) {
    forall x, y :: x in xs && y in xs && le(x, y) && le(y, x) ==> x == y
  }

  // When no two different elements are equivalent, there is one sorted arrangement.
  lemma {:induction false} SortedUnique<T>(xs: seq<T>, ys: seq<T>, le: (T, T) -> bool)
    requires IsSorted(xs, le) && IsSorted(ys, le) && multiset(xs) == multiset(ys)
    requires NoneEquivalent(xs, le)
    ensures xs == ys
  {
    SameLength(xs, ys);
    if xs != [] {
      hide IsSorted, NoneEquivalent;
      SameLast(xs, ys, le);
      DropLast(xs, le);
      DropLast(ys, le);
      SameFronts(xs, ys);
      SortedUnique(xs[..|xs| - 1], ys[..|ys| - 1], le);
      SameSnoc(xs, ys);
    }
  }

  lemma {:induction false} SameSnoc<T>(xs: seq<T>, ys: seq<T>)
    requires xs != [] && |xs| == |ys| && xs[..|xs| - 1] == ys[..|ys| - 1] && xs[|xs| - 1] == ys[|ys| - 1]
    ensures xs == ys
  {
    assert xs == xs[..|xs| - 1] + [xs[|xs| - 1]] && ys == ys[..|ys| - 1] + [ys[|ys| - 1]];
  }

  lemma {:induction false} SameLast<T>(xs: seq<T>, ys: seq<T>, le: (T, T) -> bool)
    requires xs != [] && |xs| == |ys| && IsSorted(xs, le) && IsSorted(ys, le) && multiset(xs) == multiset(ys)
    requires NoneEquivalent(xs, le)
    ensures xs[|xs| - 1] == ys[|ys| - 1]
  {
    LastIsGreatest(xs, ys, le);
    LastIsGreatest(ys, xs, le);
    var y := ys[|ys| - 1];
    assert y in multiset(ys) && y in multiset(xs) && y in xs;
  }

  lemma {:induction false} DropLast<T>(xs: seq<T>, le: (T, T) -> bool)
    requires xs != [] && IsSorted(xs, le)
    ensures IsSorted(xs[..|xs| - 1], le)
    ensures NoneEquivalent(xs, le) ==> NoneEquivalent(xs[..|xs| - 1], le)
  {
    assert forall x :: x in xs[..|xs| - 1] ==> x in xs;
  }

  lemma {:induction false} SameFronts<T>(xs: seq<T>, ys: seq<T>)
    requires xs != [] && ys != [] && multiset(xs) == multiset(ys) && xs[|xs| - 1] == ys[|ys| - 1]
    ensures multiset(xs[..|xs| - 1]) == multiset(ys[..|ys| - 1])
  {
    FrontIs(xs);
    FrontIs(ys);
  }

  lemma {:induction false} FrontIs<T>(xs: seq<T>)
    requires xs != []
    ensures multiset(xs[..|xs| - 1]) == multiset(xs) - multiset{xs[|xs| - 1]}
  {
    assert xs == xs[..|xs| - 1] + [xs[|xs| - 1]];
  }

  lemma {:induction false} LastIsGreatest<T>(xs: seq<T>, ys: seq<T>, le: (T, T) -> bool)
    requires xs != [] && ys != [] && IsSorted(xs, le) && multiset(xs) == multiset(ys)
    ensures ys[|ys| - 1] == xs[|xs| - 1] || le(ys[|ys| - 1], xs[|xs| - 1])
  {
    var y := ys[|ys| - 1];
    assert y in multiset(ys) && y in multiset(xs);
    var i :| 0 <= i < |xs| && xs[i] == y;
  }

  lemma {:induction false} SameLength<T>(xs: seq<T>, ys: seq<T>)
    requires multiset(xs) == multiset(ys)
    ensures |xs| == |ys|
  {
    assert |multiset(xs)| == |multiset(ys)|;
  }

  // ---------- Permutations ----------

  lemma {:induction false} WithoutOne<T>(xs: seq<T>, j: nat)
    requires j < |xs|
    ensures multiset(xs[..j] + xs[j + 1..]) == multiset(xs) - multiset{xs[j]}
    ensures xs[..j] + [xs[j]] + xs[j + 1..] == xs
  {
    assert xs == xs[..j] + [xs[j]] + xs[j + 1..];
  }

  lemma {:induction false} SameElement<T>(xs: seq<T>, ys: seq<T>, i: nat) returns (j: nat)
    requires multiset(xs) == multiset(ys) && i < |xs|
    ensures j < |ys| && ys[j] == xs[i]
  {
    assert xs[i] in multiset(ys) && xs[i] in ys;
    j :| 0 <= j < |ys| && ys[j] == xs[i];
  }

  // Images of a permutation, by whatever map, are a permutation.
  lemma {:induction false} ImagesPermuted<A, B>(xs: seq<A>, ys: seq<A>, fxs: seq<B>, fys: seq<B>)
    requires multiset(xs) == multiset(ys) && |fxs| == |xs| && |fys| == |ys|
    requires forall i, j :: 0 <= i < |xs| && 0 <= j < |ys| && xs[i] == ys[j] ==> fxs[i] == fys[j]
    ensures multiset(fxs) == multiset(fys)
  {
    SameLength(xs, ys);
    if xs != [] {
      var n := |xs| - 1;
      var j := SameElement(xs, ys, n);
      SameRests(xs, n, ys, j);
      ImagesPermuted(xs[..n] + xs[n + 1..], ys[..j] + ys[j + 1..], fxs[..n] + fxs[n + 1..], fys[..j] + fys[j + 1..]);
      PutBack(fxs, n);
      PutBack(fys, j);
    }
  }

  lemma {:induction false} SameRests<T>(xs: seq<T>, i: nat, ys: seq<T>, j: nat)
    requires i < |xs| && j < |ys| && xs[i] == ys[j] && multiset(xs) == multiset(ys)
    ensures multiset(xs[..i] + xs[i + 1..]) == multiset(ys[..j] + ys[j + 1..])
  {
    WithoutOne(xs, i);
    WithoutOne(ys, j);
  }

  lemma {:induction false} PutBack<T>(xs: seq<T>, j: nat)
    requires j < |xs|
    ensures multiset(xs) == multiset(xs[..j] + xs[j + 1..]) + multiset{xs[j]}
  {
    WithoutOne(xs, j);
    assert xs[j] in xs;
  }

  // ---------- Lists without repeats ----------

  ghost predicate Distinct<T>(xs: seq<T>) {
    forall i, j :: 0 <= i < j < |xs| ==> xs[i] != xs[j]
  }

  lemma {:induction false} DistinctSnoc<T>(xs: seq<T>, x: T)
    ensures Distinct(xs + [x]) <==> Distinct(xs) && x !in xs
  {
    var all := xs + [x];
    assert forall k :: 0 <= k < |xs| ==> all[k] == xs[k];
    assert all[|xs|] == x;
  }

  lemma {:induction false} DistinctIffCounts<T(!new)>(xs: seq<T>)
    ensures Distinct(xs) <==> forall x :: multiset(xs)[x] <= 1
  {
    if xs != [] {
      var before, last := xs[..|xs| - 1], xs[|xs| - 1];
      assert xs == before + [last];
      DistinctSnoc(before, last);
      DistinctIffCounts(before);
      assert multiset(xs) == multiset(before) + multiset{last};
      assert last in before <==> multiset(before)[last] > 0;
      if forall x :: multiset(xs)[x] <= 1 {
        assert multiset(xs)[last] <= 1;
        forall x
          ensures multiset(before)[x] <= 1
        {
          assert multiset(xs)[x] <= 1;
        }
      }
    }
  }

  lemma {:induction false} DistinctPermuted<T(!new)>(xs: seq<T>, ys: seq<T>)
    requires multiset(xs) == multiset(ys)
    ensures Distinct(xs) <==> Distinct(ys)
  {
    DistinctIffCounts(xs);
    DistinctIffCounts(ys);
  }

  // slices.Compact
  function Compact<T(==)>(xs: seq<T>): seq<T> {
    if |xs| <= 1 then xs
    else
      var before, last := Compact(xs[..|xs| - 1]), xs[|xs| - 1];
      if last == xs[|xs| - 2] then before else before + [last]
  }

  // Compacting leaves no two neighbours equal and drops no element.
  lemma {:induction false} CompactIs<T>(xs: seq<T>)
    ensures forall x :: x in Compact(xs) <==> x in xs
    ensures forall i :: 0 <= i < |Compact(xs)| - 1 ==> Compact(xs)[i] != Compact(xs)[i + 1]
    ensures xs != [] ==> Compact(xs) != [] && Compact(xs)[|Compact(xs)| - 1] == xs[|xs| - 1]
  {
    if |xs| > 1 {
      CompactIs(xs[..|xs| - 1]);
      assert xs == xs[..|xs| - 1] + [xs[|xs| - 1]];
      assert xs[|xs| - 2] == xs[..|xs| - 1][|xs| - 2];
    }
  }

  lemma {:induction false} CompactKeeps<T>(xs: seq<T>)
    requires Distinct(xs)
    ensures Compact(xs) == xs
  {
    if |xs| > 1 {
      CompactKeeps(xs[..|xs| - 1]);
      assert xs == xs[..|xs| - 1] + [xs[|xs| - 1]];
    }
  }
}
