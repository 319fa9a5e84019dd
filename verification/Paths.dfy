/** Absolute slash-separated paths: normal forms, parents, base names, and a total order on names. */
module Paths {
  import opened Text

  /** A path segment that names something: not empty, not `.` or `..`, and without a slash. */
  predicate IsName(s: string) {
    s != "" && s != "." && s != ".." && Without(s, '/')
  }

  predicate AllNames(parts: seq<string>) {
    forall i :: 0 <= i < |parts| ==> IsName(parts[i])
  }

  /** What one segment does to the parts collected before it. */
  function Push(parts: seq<string>, segment: string): seq<string> {
    if segment == "" || segment == "." then parts
    else if segment == ".." then (if parts == [] then [] else parts[..|parts| - 1])
    else parts + [segment]
  }

  function PushAll(parts: seq<string>, segments: seq<string>): seq<string>
    decreases |segments|
  {
    if segments == [] then parts else PushAll(Push(parts, segments[0]), segments[1..])
  }

  /** The names along a path. */
  function Parts(path: string): seq<string> {
    PushAll([], Split(path, '/'))
  }

  function Render(parts: seq<string>): string {
    if parts == [] then "/" else "/" + Join(parts, "/")
  }

  function Normal(path: string): string {
    Render(Parts(path))
  }

  predicate Canonical(path: string) {
    Normal(path) == path
  }

  function NonEmpty(segments: seq<string>): seq<string> {
    if segments == [] then []
    else (if segments[0] == "" then [] else [segments[0]]) + NonEmpty(segments[1..])
  }

  /** The non-empty segments of the normal form. */
  function Segments(path: string): seq<string> {
    NonEmpty(Split(Normal(path), '/'))
  }

  function Parent(path: string): string {
    var parts := Segments(path);
    if |parts| <= 1 then "/" else "/" + Join(parts[..|parts| - 1], "/")
  }

  function Basename(path: string): string {
    var parts := Segments(path);
    if parts == [] then "" else parts[|parts| - 1]
  }

  /** The path of an entry in a directory. */
  function Child(directory: string, name: string): string {
    Render(Parts(directory) + [name])
  }

  // ----- Parts are names, and names render to paths with those parts -----

  lemma {:induction false} PushAllNames(parts: seq<string>, segments: seq<string>)
    requires AllNames(parts) && AllWithout(segments, '/')
    ensures AllNames(PushAll(parts, segments))
    decreases |segments|
  {
    if segments != [] {
      assert Without(segments[0], '/');
      PushAllNames(Push(parts, segments[0]), segments[1..]);
    }
  }

  lemma PartsAreNames(path: string)
    ensures AllNames(Parts(path))
  {
    SplitParts(path, '/');
    PushAllNames([], Split(path, '/'));
  }

  lemma {:induction false} PushAllAppends(parts: seq<string>, names: seq<string>)
    requires AllNames(names)
    ensures PushAll(parts, names) == parts + names
    decreases |names|
  {
    if names == [] {
      assert parts + names == parts;
    } else {
      assert IsName(names[0]);
      PushAllAppends(parts + [names[0]], names[1..]);
      assert parts + [names[0]] + names[1..] == parts + names;
    }
  }

  lemma SplitRendered(names: seq<string>)
    requires AllNames(names)
    ensures Split(Render(names), '/') == if names == [] then ["", ""] else [""] + names
  {
    if names == [] {
      SplitJoin(["", ""], '/');
      assert Join(["", ""], "/") == "/";
    } else {
      assert AllWithout([""] + names, '/');
      assert ([""] + names)[1..] == names;
      assert "" + "/" + Join(names, "/") == "/" + Join(names, "/");
      SplitJoin([""] + names, '/');
    }
  }

  lemma PartsOfRendered(names: seq<string>)
    requires AllNames(names)
    ensures Parts(Render(names)) == names
    ensures Canonical(Render(names))
  {
    SplitRendered(names);
    if names != [] {
      assert ([""] + names)[1..] == names;
      PushAllAppends([], names);
      assert [] + names == names;
    } else {
      assert ["", ""][1..] == [""];
    }
  }

  lemma {:induction false} NonEmptyNames(names: seq<string>)
    requires AllNames(names)
    ensures NonEmpty(names) == names
  {
    if names != [] {
      assert IsName(names[0]);
      NonEmptyNames(names[1..]);
    }
  }

  lemma SegmentsAreParts(path: string)
    ensures Segments(path) == Parts(path)
  {
    PartsAreNames(path);
    SplitRendered(Parts(path));
    if Parts(path) != [] {
      assert ([""] + Parts(path))[1..] == Parts(path);
      NonEmptyNames(Parts(path));
    } else {
      assert NonEmpty(["", ""]) == NonEmpty([""]) == [];
    }
  }

  /** Normalizing twice is normalizing once, and keeps the parts. */
  lemma NormalIdempotent(path: string)
    ensures Normal(Normal(path)) == Normal(path)
    ensures Parts(Normal(path)) == Parts(path)
  {
    PartsAreNames(path);
    PartsOfRendered(Parts(path));
  }

  /** The names along a path without the last one. */
  function Up(parts: seq<string>): seq<string> {
    if parts == [] then [] else parts[..|parts| - 1]
  }

  lemma ParentRenders(path: string)
    ensures Parent(path) == Render(Up(Parts(path)))
  {
    SegmentsAreParts(path);
    var parts := Segments(path);
    assert parts == Parts(path);
    if |parts| == 1 { assert parts[..0] == []; }
  }

  /** Parent and base name depend on the normal form only, and the parent is one step up. */
  lemma ParentIs(path: string)
    ensures Parent(path) == Render(Up(Parts(path))) && Parts(Parent(path)) == Up(Parts(path))
    ensures Canonical(Parent(path))
    ensures Basename(path) == if Parts(path) == [] then "" else Parts(path)[|Parts(path)| - 1]
  {
    ParentRenders(path);
    SegmentsAreParts(path);
    PartsAreNames(path);
    PartsOfRendered(Up(Parts(path)));
  }

  lemma RootParts()
    ensures Parts("/") == [] && Canonical("/") && Parent("/") == "/"
  {
    PartsOfRendered([]);
    ParentIs("/");
  }

  /** A path other than the root is its parent, a slash, and its base name. */
  lemma SplitsIntoParentAndBase(path: string)
    requires Normal(path) != "/"
    ensures IsName(Basename(path)) && Child(Parent(path), Basename(path)) == Normal(path)
    ensures Normal(path) == (if Parent(path) == "/" then "/" else Parent(path) + "/") + Basename(path)
    ensures Parent(path) != Normal(path) && |Parts(Parent(path))| < |Parts(path)|
  {
    hide Parent, Basename, Split, Join, PushAll, NonEmpty, Segments;
    ParentIs(path);
    PartsAreNames(path);
    NormalIdempotent(path);
    NormalIdempotent(Parent(path));
    var parts := Parts(path);
    assert parts != [];
    assert parts == Up(parts) + [Basename(path)];
    assert IsName(Basename(path));
    RenderedSnoc(Up(parts), Basename(path));
  }

  lemma RenderedSnoc(up: seq<string>, last: string)
    requires AllNames(up) && IsName(last)
    ensures Render(up + [last]) == (if Render(up) == "/" then "/" else Render(up) + "/") + last
  {
    if up != [] {
      RenderedLonger(up);
      JoinSnoc(up, last, "/");
    }
  }

  lemma RenderedLonger(names: seq<string>)
    requires AllNames(names) && names != []
    ensures Render(names) != "/"
  {
    PartsOfRendered(names);
    RootParts();
  }

  /** An entry of a directory has that directory as parent and its own name as base name. */
  lemma ChildIs(directory: string, name: string)
    requires IsName(name)
    ensures Canonical(Child(directory, name)) && Child(directory, name) != "/"
    ensures Parent(Child(directory, name)) == Normal(directory)
    ensures Basename(Child(directory, name)) == name
  {
    PartsAreNames(directory);
    var parts := Parts(directory) + [name];
    PartsOfRendered(parts);
    RenderedLonger(parts);
    ParentIs(Child(directory, name));
    assert parts[..|parts| - 1] == Parts(directory);
  }

  /** Different names in a directory, or names in different directories, make different paths. */
  lemma ChildInjective(d: string, n: string, d': string, n': string)
    requires Canonical(d) && Canonical(d') && IsName(n) && IsName(n') && Child(d, n) == Child(d', n')
    ensures d == d' && n == n'
  {
    ChildIs(d, n);
    ChildIs(d', n');
  }

  // ----- One segment more -----

  lemma {:induction false} PushAllSnoc(parts: seq<string>, segments: seq<string>, last: string)
    ensures PushAll(parts, segments + [last]) == Push(PushAll(parts, segments), last)
    decreases |segments|
  {
    if segments == [] {
      assert segments + [last] == [last];
      assert PushAll(parts, [last]) == PushAll(Push(parts, last), [last][1..]);
    } else {
      assert (segments + [last])[1..] == segments[1..] + [last];
      PushAllSnoc(Push(parts, segments[0]), segments[1..], last);
    }
  }

  lemma SplitSnoc(path: string, segment: string)
    requires Without(segment, '/')
    ensures Split(path + "/" + segment, '/') == Split(path, '/') + [segment]
  {
    var parts := Split(path, '/');
    SplitParts(path, '/');
    JoinSplit(path, '/');
    JoinSnoc(parts, segment, "/");
    SplitJoin(parts + [segment], '/');
  }

  lemma PartsSnoc(path: string, segment: string)
    requires Without(segment, '/')
    ensures Parts(path + "/" + segment) == Push(Parts(path), segment)
  {
    hide Push;
    SplitSnoc(path, segment);
    PushAllSnoc([], Split(path, '/'), segment);
  }

  /**
   A path by its last segment: a name leads to the entry of that name, two dots to the parent, and one
   dot or nothing nowhere else.
   */
  lemma LastSegment(path: string, name: string)
    requires IsName(name)
    ensures Normal(path + "/" + name) == (if Normal(path) == "/" then "/" else Normal(path) + "/") + name
    ensures Normal(path + "/" + "..") == Parent(path)
    ensures Normal(path + "/" + ".") == Normal(path) == Normal(path + "/" + "")
  {
    PartsSnoc(path, name);
    PartsSnoc(path, "..");
    PartsSnoc(path, ".");
    PartsSnoc(path, "");
    PartsAreNames(path);
    ParentRenders(path);
    RenderedSnoc(Parts(path), name);
  }

  /** A path of one segment: it starts at the root, and no dots lead above the root. */
  lemma OnlySegment(name: string)
    requires IsName(name)
    ensures Normal(name) == "/" + name
    ensures Normal("") == "/" && Normal(".") == "/" && Normal("..") == "/" && Parent("/") == "/"
  {
    forall segment | Without(segment, '/')
      ensures Parts(segment) == Push([], segment)
    {
      SplitJoin([segment], '/');
      assert PushAll(Push([], segment), [segment][1..]) == Push([], segment);
    }
    RootParts();
    assert Without("", '/') && Without(".", '/') && Without("..", '/');
    assert Join([name], "/") == name;
    assert "/" + Join([name], "/") == "/" + name;
  }

  // ----- The normalizing loop -----

  /** Normalizes a path segment by segment. */
  method Normalize(input: string) returns (path: string)
    ensures path == Normal(input)
  {
    var parts: seq<string> := [];
    var segments := Split(input, '/');
    assert segments[0..] == segments;
    for i := 0 to |segments|
      invariant PushAll(parts, segments[i..]) == Parts(input)
    {
      var part := segments[i];
      assert segments[i..][0] == part && segments[i..][1..] == segments[i + 1..];
      if part != "" && part != "." {
        if part == ".." {
          if parts != [] { parts := parts[..|parts| - 1]; }
        } else {
          parts := parts + [part];
        }
      }
    }
    assert segments[|segments|..] == [];
    path := if |parts| == 0 then "/" else "/" + Join(parts, "/");
  }

  // ----- A total order on names -----

  predicate AtMost(a: string, b: string) {
    a == "" || (b != "" && (a[0] < b[0] || (a[0] == b[0] && AtMost(a[1..], b[1..]))))
  }

  lemma {:induction false} AtMostTotal(a: string, b: string)
    ensures AtMost(a, b) || AtMost(b, a)
    ensures AtMost(a, b) && AtMost(b, a) ==> a == b
  {
    if a != "" && b != "" && a[0] == b[0] {
      AtMostTotal(a[1..], b[1..]);
      assert a == [a[0]] + a[1..] && b == [b[0]] + b[1..];
    }
  }

  lemma {:induction false} AtMostTransitive(a: string, b: string, c: string)
    requires AtMost(a, b) && AtMost(b, c)
    ensures AtMost(a, c)
  {
    if a != "" && a[0] == b[0] && b[0] == c[0] {
      AtMostTransitive(a[1..], b[1..], c[1..]);
    }
  }

  /** The strings agree before `k`, and there the first has the smaller code unit. */
  predicate SmallerAt(a: string, b: string, k: nat) {
    k < |a| && k < |b| && a[..k] == b[..k] && a[k] < b[k]
  }

  lemma SmallerTail(a: string, b: string, k: nat)
    requires a != "" && b != ""
    ensures SmallerAt(a, b, k + 1) <==> a[0] == b[0] && SmallerAt(a[1..], b[1..], k)
  {
    if k + 1 < |a| && k + 1 < |b| {
      assert a[..k + 1] == [a[0]] + a[1..][..k] && b[..k + 1] == [b[0]] + b[1..][..k];
    }
  }

  /** The order of code units: a prefix comes first, otherwise the first unit that differs decides. */
  lemma {:induction false} AtMostIs(a: string, b: string)
    ensures AtMost(a, b) <==> a <= b || exists k :: SmallerAt(a, b, k)
  {
    if a != "" && b != "" {
      AtMostIs(a[1..], b[1..]);
      assert a == [a[0]] + a[1..] && b == [b[0]] + b[1..];
      assert a <= b <==> a[0] == b[0] && a[1..] <= b[1..];
      if k: nat :| SmallerAt(a, b, k) {
        assert a[0] < b[0] <== k == 0;
        if k > 0 { SmallerTail(a, b, k - 1); }
      }
      if a[0] < b[0] {
        assert SmallerAt(a, b, 0);
      } else if k: nat :| a[0] == b[0] && SmallerAt(a[1..], b[1..], k) {
        SmallerTail(a, b, k);
        assert SmallerAt(a, b, k + 1);
      }
    }
  }

  /** A listing of a set: every element once, in order. */
  ghost predicate IsListing(r: seq<string>, names: set<string>) {
    && (forall i, j :: 0 <= i < j < |r| ==> AtMost(r[i], r[j]) && r[i] != r[j])
    && (forall n :: n in r <==> n in names)
  }

  lemma HasElement(s: seq<string>)
    ensures s == [] || exists n :: n in s
  {
    if s != [] { assert s[0] in s; }
  }

  /** A set has only one listing. */
  lemma {:induction false} ListingUnique(r: seq<string>, s: seq<string>, names: set<string>)
    requires IsListing(r, names) && IsListing(s, names)
    ensures r == s
    decreases |r|
  {
    if r == [] {
      HasElement(s);
      assert forall n :: n in s <==> n in r;
    } else {
      assert r[0] in names;
      assert r[0] in s;
      assert s[0] in names;
      assert s[0] in r;
      AtMostTotal(r[0], s[0]);
      assert r[0] == s[0];
      var x := r[0];
      ListingTail(r, names);
      ListingTail(s, names);
      ListingUnique(r[1..], s[1..], names - {x});
      assert r == [x] + r[1..] && s == [x] + s[1..];
    }
  }

  lemma ListingTail(r: seq<string>, names: set<string>)
    requires IsListing(r, names) && r != []
    ensures IsListing(r[1..], names - {r[0]})
  {
    forall n
      ensures n in r[1..] <==> n in names - {r[0]}
    {
      if n in r[1..] {
        var i :| 0 <= i < |r| - 1 && r[1..][i] == n;
        assert r[i + 1] == n && n in r;
      }
      if n in names - {r[0]} {
        assert n in r;
        var i :| 0 <= i < |r| && r[i] == n;
        assert r[1..][i - 1] == n;
      }
    }
  }

  /** Puts a name into its place in a listing. */
  method InsertName(r0: seq<string>, name: string, ghost names: set<string>) returns (r: seq<string>)
    requires IsListing(r0, names) && name !in names
    ensures IsListing(r, names + {name})
  {
    var i := 0;
    while i < |r0| && AtMost(r0[i], name)
      invariant i <= |r0|
      invariant forall k :: 0 <= k < i ==> AtMost(r0[k], name)
    {
      i := i + 1;
    }
    r := r0[..i] + [name] + r0[i..];
    InsertedListing(r0, name, names, i);
  }

  lemma InsertedListing(r0: seq<string>, name: string, names: set<string>, i: nat)
    requires IsListing(r0, names) && name !in names && i <= |r0|
    requires forall k :: 0 <= k < i ==> AtMost(r0[k], name)
    requires i < |r0| ==> !AtMost(r0[i], name)
    ensures IsListing(r0[..i] + [name] + r0[i..], names + {name})
  {
    var r := r0[..i] + [name] + r0[i..];
    forall k | i <= k < |r0|
      ensures AtMost(name, r0[k])
    {
      AtMostTotal(r0[i], name);
      if i < k { AtMostTransitive(name, r0[i], r0[k]); }
    }
    forall k | 0 <= k < |r0|
      ensures r0[k] != name
    {
      assert r0[k] in r0;
    }
    forall n
      ensures n in r <==> n in names + {name}
    {
      assert n in r <==> n in r0[..i] || n == name || n in r0[i..];
      assert r0 == r0[..i] + r0[i..];
    }
  }

  /** The elements of a set in order. */
  method SortNames(names: set<string>) returns (r: seq<string>)
    ensures IsListing(r, names)
  {
    r := [];
    var rest := names;
    while rest != {}
      invariant rest <= names && IsListing(r, names - rest)
      decreases rest
    {
      var name :| name in rest;
      r := InsertName(r, name, names - rest);
      assert names - rest + {name} == names - (rest - {name});
      rest := rest - {name};
    }
    assert names - rest == names;
  }
}
