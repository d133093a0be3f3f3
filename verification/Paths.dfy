/**
Slash-separated paths: the functions of Go's `path` package that the sync uses.
*/
module Paths {
  import opened Text

  // One path element onto the elements kept so far
  function CleanStep(kept: seq<string>, part: string, rooted: bool): seq<string> {
    if part == "" || part == "." then kept
    else if part == ".." then
      if kept != [] && kept[|kept| - 1] != ".." then kept[..|kept| - 1]
      else if rooted then kept
      else kept + [part]
    else kept + [part]
  }

  function CleanParts(parts: seq<string>, rooted: bool): seq<string> {
    if parts == [] then [] else CleanStep(CleanParts(parts[..|parts| - 1], rooted), parts[|parts| - 1], rooted)
  }

  // path.Clean
  function Clean(path: string): string {
    var rooted := path != "" && path[0] == '/';
    var kept := Join(CleanParts(Split(path, '/'), rooted), '/');
    if rooted then "/" + kept else if kept == "" then "." else kept
  }

  function DropEmpty(elems: seq<string>): seq<string> {
    if elems != [] && elems[0] == "" then DropEmpty(elems[1..]) else elems
  }

  // path.Join
  function JoinPath(elems: seq<string>): string {
    var rest := DropEmpty(elems);
    if rest == [] then "" else Clean(Join(rest, '/'))
  }

  function TrimSlashes(path: string): string {
    if path != "" && path[|path| - 1] == '/' then TrimSlashes(path[..|path| - 1]) else path
  }

  function AfterLastSlash(s: string): string {
    if s == "" || s[|s| - 1] == '/' then "" else AfterLastSlash(s[..|s| - 1]) + [s[|s| - 1]]
  }

  // path.Base
  function Base(path: string): string {
    var trimmed := TrimSlashes(path);
    if path == "" then "." else if trimmed == "" then "/" else AfterLastSlash(trimmed)
  }

  lemma {:induction false} AfterLastSlashIs(dir: string, file: string)
    requires '/' !in file
    ensures AfterLastSlash(dir + "/" + file) == file
  {
    var path := dir + "/" + file;
    if file != "" {
      var n := |file| - 1;
      assert path[..|path| - 1] == dir + "/" + file[..n];
      assert file == file[..n] + [file[n]];
      assert file[n] in file;
      AfterLastSlashIs(dir, file[..n]);
    }
  }

  // The base of a path to a file is the file's name.
  lemma {:induction false} BaseOfFile(dir: string, file: string)
    requires '/' !in file && file != ""
    ensures Base(dir + "/" + file) == file
  {
    assert file[|file| - 1] in file;
    AfterLastSlashIs(dir, file);
  }

  // A name without slashes is its own base, with or without slashes after it.
  lemma {:induction false} BaseOfName(file: string)
    requires '/' !in file && file != ""
    ensures Base(file) == file && Base(file + "/") == file
  {
    assert file[|file| - 1] in file;
    assert (file + "/")[..|file|] == file;
    AfterLastSlashNone(file);
  }

  // The path without slashes at its end, the empty one and the root
  lemma {:induction false} BaseCases(path: string)
    ensures path != "" ==> Base(path + "/") == Base(path)
    ensures Base("") == "." && Base("/") == "/"
  {
    assert (path + "/")[..|path|] == path;
    assert "/"[..0] == "";
  }

  lemma {:induction false} AfterLastSlashNone(file: string)
    requires '/' !in file
    ensures AfterLastSlash(file) == file
  {
    if file != "" {
      var n := |file| - 1;
      assert file[n] in file && file == file[..n] + [file[n]];
      AfterLastSlashNone(file[..n]);
    }
  }

  // A name that stands for itself in a path
  predicate IsSegment(s: string) {
    s != "" && s != "." && s != ".." && '/' !in s
  }

  lemma {:induction false} SplitJoin(parts: seq<string>, sep: char)
    requires parts != [] && forall p <- parts :: sep !in p
    ensures Split(Join(parts, sep), sep) == parts
  {
    assert parts[0] in parts;
    if |parts| == 1 {
      SplitOne(parts[0], sep);
    } else {
      SplitJoin(parts[1..], sep);
      SplitAt(parts[0], sep, Join(parts[1..], sep));
    }
  }

  lemma {:induction false} SegmentsAreClean(parts: seq<string>, rooted: bool)
    requires forall p <- parts :: IsSegment(p)
    ensures CleanParts(parts, rooted) == parts
  {
    if parts != [] {
      var before, last := parts[..|parts| - 1], parts[|parts| - 1];
      assert parts == before + [last];
      SegmentsAreClean(before, rooted);
      assert IsSegment(last);
    }
  }

  // Joining plain names puts slashes between them and does nothing else.
  lemma {:induction false} JoinSegments(a: string, b: string, c: string)
    requires IsSegment(a) && IsSegment(b) && IsSegment(c)
    ensures JoinPath([a, b, c]) == a + "/" + b + "/" + c
  {
    var parts := [a, b, c];
    var path := a + "/" + b + "/" + c;
    assert parts[1..] == [b, c] && [b, c][1..] == [c];
    assert Join([c], '/') == c && Join([b, c], '/') == b + ['/'] + c;
    assert Join(parts, '/') == a + ['/'] + (b + ['/'] + c) == path;
    assert forall p <- parts :: IsSegment(p);
    SplitJoin(parts, '/');
    SegmentsAreClean(parts, false);
    assert path[0] == a[0] && a[0] in a;
  }

  // A path of three plain names determines the names.
  lemma {:induction false} SegmentsUnique(a: string, b: string, c: string, b': string, c': string)
    requires IsSegment(b) && IsSegment(b') && IsSegment(c) && IsSegment(c')
    requires a + "/" + b + "/" + c == a + "/" + b' + "/" + c'
    ensures b == b' && c == c'
  {
    var rest := b + ['/'] + c;
    assert (a + "/" + b + "/" + c)[|a| + 1..] == rest;
    assert (a + "/" + b' + "/" + c')[|a| + 1..] == b' + ['/'] + c';
    SplitAt(b, '/', c);
    SplitAt(b', '/', c');
    SplitOne(c, '/');
    SplitOne(c', '/');
    assert [b] + [c] == [b, c] && [b'] + [c'] == [b', c'];
    assert Split(rest, '/')[0] == b && Split(rest, '/')[1] == c;
  }

  // ---------- A directory and a file in it ----------

  // The elements of a cleaned path that starts with a plain name
  function Kept(a: string, dir: string): seq<string> {
    CleanParts([a] + Split(dir, '/'), false)
  }

  // Cleaned elements: none is empty, has a slash or is a single dot.
  ghost predicate AreElements(parts: seq<string>) {
    forall p <- parts :: p != "" && p != "." && '/' !in p
  }

  lemma {:induction false} CleanedAreElements(parts: seq<string>)
    requires forall p <- parts :: '/' !in p
    ensures AreElements(CleanParts(parts, false))
  {
    if parts != [] {
      var before, last := parts[..|parts| - 1], parts[|parts| - 1];
      assert parts == before + [last];
      CleanedAreElements(before);
      assert last in parts;
    }
  }

  lemma {:induction false} KeptAreElements(a: string, dir: string)
    requires IsSegment(a)
    ensures AreElements(Kept(a, dir))
  {
    CleanedAreElements([a] + Split(dir, '/'));
  }

  lemma {:induction false} JoinElements(parts: seq<string>)
    requires AreElements(parts)
    ensures Join(parts, '/') == "" <==> parts == []
  {
    if parts != [] {
      assert parts[0] in parts;
    }
  }

  lemma {:induction false} CleanOf(parts: seq<string>)
    requires parts != [] && parts[0] != "" && forall p <- parts :: '/' !in p
    requires AreElements(CleanParts(parts, false))
    ensures var kept := CleanParts(parts, false); Clean(Join(parts, '/')) == if kept == [] then "." else Join(kept, '/')
  {
    assert parts[0] in parts && parts[0][0] in parts[0];
    SplitJoin(parts, '/');
    assert Join(parts, '/')[0] == parts[0][0];
    JoinElements(CleanParts(parts, false));
  }

  // A rooted path of plain names is clean, and without elements there is no path.
  lemma {:induction false} RootedPath(parts: seq<string>)
    requires parts != [] && forall p <- parts :: IsSegment(p)
    ensures Clean("/" + Join(parts, '/')) == "/" + Join(parts, '/')
  {
    hide CleanParts;
    var path := Join(parts, '/');
    SplitAfterSlash(path);
    SplitJoin(parts, '/');
    ParentDropped([], parts[0], parts, true);
    assert [] + [""] + parts == [""] + parts && [] + parts == parts;
    SegmentsAreClean(parts, true);
  }

  lemma {:induction false} SplitAfterSlash(path: string)
    ensures Split("/" + path, '/') == [""] + Split(path, '/')
  {
    assert ("/" + path)[1..] == path;
  }

  // Empty elements at the start drop out, and when nothing is left there is no path.
  lemma {:induction false} LeadingEmpty(elems: seq<string>)
    ensures JoinPath([""] + elems) == JoinPath(elems) && JoinPath([]) == ""
  {
    assert ([""] + elems)[1..] == elems;
  }

  lemma {:induction false} JoinAppend(a: seq<string>, b: seq<string>, sep: char)
    requires a != [] && b != []
    ensures Join(a + b, sep) == Join(a, sep) + [sep] + Join(b, sep)
  {
    if |a| == 1 {
      assert (a + b)[1..] == b;
    } else {
      assert (a + b)[1..] == a[1..] + b;
      JoinAppend(a[1..], b, sep);
    }
  }

  // Joining a plain name and a directory cleans them to their elements.
  lemma {:induction false} JoinDir(a: string, dir: string)
    requires IsSegment(a)
    ensures JoinPath([a, dir]) == if Kept(a, dir) == [] then "." else Join(Kept(a, dir), '/')
  {
    var parts := [a] + Split(dir, '/');
    JoinSplit(dir, '/');
    JoinAppend([a], Split(dir, '/'), '/');
    assert [a, dir][1..] == [dir];
    assert Join([a, dir], '/') == Join(parts, '/');
    KeptAreElements(a, dir);
    CleanOf(parts);
  }

  // With a plain file name at the end, that name is one more element.
  lemma {:induction false} JoinFile(a: string, dir: string, file: string)
    requires IsSegment(a) && IsSegment(file)
    ensures JoinPath([a, dir, file]) == Join(Kept(a, dir) + [file], '/')
  {
    var front := [a] + Split(dir, '/');
    var parts := front + [file];
    JoinSplit(dir, '/');
    JoinAppend([a], Split(dir, '/'), '/');
    JoinAppend(front, [file], '/');
    assert [a, dir, file][1..] == [dir, file] && [dir, file][1..] == [file];
    assert Join([a, dir, file], '/') == a + ['/'] + (dir + ['/'] + file) == (a + ['/'] + dir) + ['/'] + file ==
      Join(parts, '/');
    assert parts[..|parts| - 1] == front;
    assert CleanParts(parts, false) == Kept(a, dir) + [file];
    KeptAreElements(a, dir);
    CleanOf(parts);
  }

  lemma {:induction false} JoinInjective(a: seq<string>, b: seq<string>)
    requires a != [] && b != [] && AreElements(a) && AreElements(b) && Join(a, '/') == Join(b, '/')
    ensures a == b
  {
    SplitJoin(a, '/');
    SplitJoin(b, '/');
  }

  // Cleaned directories are the same exactly when their elements are.
  lemma {:induction false} SameDir(a: string, dir: string, dir': string)
    requires IsSegment(a)
    ensures JoinPath([a, dir]) == JoinPath([a, dir']) <==> Kept(a, dir) == Kept(a, dir')
  {
    JoinDir(a, dir);
    JoinDir(a, dir');
    KeptAreElements(a, dir);
    KeptAreElements(a, dir');
    if JoinPath([a, dir]) == JoinPath([a, dir']) {
      NotDot(Kept(a, dir));
      NotDot(Kept(a, dir'));
      if Kept(a, dir) != [] && Kept(a, dir') != [] {
        JoinInjective(Kept(a, dir), Kept(a, dir'));
      }
    }
  }

  lemma {:induction false} NotDot(parts: seq<string>)
    requires AreElements(parts)
    ensures Join(parts, '/') != "."
  {
    if parts != [] {
      SplitJoin(parts, '/');
      SplitOne(".", '/');
      assert parts[0] in parts;
    }
  }

  // Two files are the same exactly when they have the same name in the same cleaned directory.
  lemma {:induction false} SameFile(a: string, dir: string, file: string, dir': string, file': string)
    requires IsSegment(a) && IsSegment(file) && IsSegment(file')
    ensures JoinPath([a, dir, file]) == JoinPath([a, dir', file']) <==>
      JoinPath([a, dir]) == JoinPath([a, dir']) && file == file'
  {
    JoinFile(a, dir, file);
    JoinFile(a, dir', file');
    SameDir(a, dir, dir');
    KeptAreElements(a, dir);
    KeptAreElements(a, dir');
    var x, y := Kept(a, dir) + [file], Kept(a, dir') + [file'];
    if Join(x, '/') == Join(y, '/') {
      JoinInjective(x, y);
      assert x[..|x| - 1] == Kept(a, dir) && y[..|y| - 1] == Kept(a, dir') && x[|x| - 1] == file && y[|y| - 1] == file';
    }
  }

  // A leading dot makes no other directory.
  lemma {:induction false} DottedDir(a: string, dir: string)
    requires IsSegment(a)
    ensures JoinPath([a, "./" + dir]) == JoinPath([a, dir])
  {
    SplitAt(".", '/', dir);
    assert "./" + dir == "." + ['/'] + dir;
    var parts := Split(dir, '/');
    DotDropped([a], parts);
    assert [a] + (["."] + parts) == [a] + ["."] + parts;
    SameDir(a, "./" + dir, dir);
  }

  lemma {:induction false} DotDropped(before: seq<string>, after: seq<string>)
    ensures CleanParts(before + ["."] + after, false) == CleanParts(before + after, false)
    decreases |after|
  {
    var x, y := before + ["."] + after, before + after;
    if after == [] {
      assert x[..|x| - 1] == before && y == before;
    } else {
      var n := |after| - 1;
      assert x[..|x| - 1] == before + ["."] + after[..n] && y[..|y| - 1] == before + after[..n];
      DotDropped(before, after[..n]);
    }
  }

  // ---------- Parents ----------

  // Parts that clean alike clean alike with more behind them.
  lemma {:induction false} CleanedAlike(a: seq<string>, b: seq<string>, after: seq<string>, rooted: bool)
    requires CleanParts(a, rooted) == CleanParts(b, rooted)
    ensures CleanParts(a + after, rooted) == CleanParts(b + after, rooted)
    decreases |after|
  {
    if after == [] {
      assert a + after == a && b + after == b;
    } else {
      var n := |after| - 1;
      CleanedAlike(a, b, after[..n], rooted);
      assert (a + after)[..|a + after| - 1] == a + after[..n] && (b + after)[..|b + after| - 1] == b + after[..n];
    }
  }

  lemma {:induction false} CleanSnoc(before: seq<string>, part: string, rooted: bool)
    ensures CleanParts(before + [part], rooted) == CleanStep(CleanParts(before, rooted), part, rooted)
  {
    assert (before + [part])[..|before|] == before;
  }

  // A name followed by two dots drops out, and so does an empty element.
  lemma {:induction false} ParentDropped(before: seq<string>, name: string, after: seq<string>, rooted: bool)
    requires IsSegment(name)
    ensures CleanParts(before + [name] + [".."] + after, rooted) == CleanParts(before + after, rooted)
    ensures CleanParts(before + [""] + after, rooted) == CleanParts(before + after, rooted)
  {
    var kept := CleanParts(before, rooted);
    CleanSnoc(before, name, rooted);
    CleanSnoc(before + [name], "..", rooted);
    CleanSnoc(before, "", rooted);
    assert (kept + [name])[..|kept|] == kept;
    hide CleanParts;
    CleanedAlike(before + [name] + [".."], before, after, rooted);
    CleanedAlike(before + [""], before, after, rooted);
  }

  // Two dots at the start stay in a relative path and drop out of a rooted one.
  lemma {:induction false} LeadingParents(parts: seq<string>)
    requires forall p <- parts :: p == ".."
    ensures CleanParts(parts, false) == parts && CleanParts(parts, true) == []
  {
    if parts != [] {
      var n := |parts| - 1;
      assert parts[n] in parts && forall p <- parts[..n] :: p in parts;
      LeadingParents(parts[..n]);
      assert parts == parts[..n] + [parts[n]];
      assert n > 0 ==> parts[n - 1] in parts;
    }
  }
}
