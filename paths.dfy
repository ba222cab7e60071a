/** A lexical model of POSIX `pathlib` paths, the only kind of path the two
    revisions of the environment finder manipulate.

    A path is a flag saying whether it is anchored at the root `/` plus the
    sequence of its components. `pathlib` never touches the filesystem for
    these operations: `parent` drops the last component, `/` appends one, and
    the path with no components (the root `/`, or `.` for a relative path) is
    its own parent. */
module Paths {

  datatype Path = Path(absolute: bool, parts: seq<string>)

  /** `/`, the root of the filesystem. */
  const Root: Path := Path(true, [])

  /** `.`, the empty relative path. */
  const Here: Path := Path(false, [])

  /** A component `pathlib` can produce: not empty, not `.`, no separator. */
  predicate IsComponent(c: string) {
    c != "" && c != "." && '/' !in c
  }

  /** A path as `pathlib` builds it from a string: every component is clean. */
  predicate WellFormed(p: Path) {
    forall i :: 0 <= i < |p.parts| ==> IsComponent(p.parts[i])
  }

  /** `p.parent` */
  function Parent(p: Path): Path {
    if p.parts == [] then p else Path(p.absolute, p.parts[..|p.parts| - 1])
  }

  /** The parent keeps the anchor and drops exactly the last component;
      only the root and `.` are their own parents; a clean path has a clean
      parent. */
  lemma ParentSpec(p: Path)
    ensures Parent(p).absolute == p.absolute
    ensures Parent(p) == p <==> p.parts == []
    ensures p.parts != [] ==> Parent(p).parts + [p.parts[|p.parts| - 1]] == p.parts
    ensures WellFormed(p) ==> WellFormed(Parent(p))
  {
    if p.parts != [] {
      assert p.parts[..|p.parts| - 1] + [p.parts[|p.parts| - 1]] == p.parts;
    }
  }

  /** `p / name` for a single component `name`. */
  function Join(p: Path, name: string): Path {
    Path(p.absolute, p.parts + [name])
  }

  /** Joining a component and taking the parent gets back to `p`; the joined
      path is a new path ending in `name`, clean when `p` and `name` are. */
  lemma JoinSpec(p: Path, name: string)
    ensures Parent(Join(p, name)) == p && Join(p, name) != p
    ensures Join(p, name).parts[|Join(p, name).parts| - 1] == name
    ensures WellFormed(p) && IsComponent(name) ==> WellFormed(Join(p, name))
  {
    assert (p.parts + [name])[..|p.parts|] == p.parts;
  }

  /** `p` with its last `k` components dropped, i.e. `p.parent` applied `k` times. */
  function Up(p: Path, k: nat): (r: Path)
    requires k <= |p.parts|
    ensures r.absolute == p.absolute && |r.parts| == |p.parts| - k
    ensures r.parts == p.parts[..|p.parts| - k]
  {
    Path(p.absolute, p.parts[..|p.parts| - k])
  }

  /** `Up` is `parent` iterated: no steps leave the path as it is, and each
      further step is one more `parent`. */
  lemma UpIsIteratedParent(p: Path, k: nat)
    requires k <= |p.parts|
    ensures Up(p, 0) == p
    ensures 0 < k ==> Up(p, k) == Parent(Up(p, k - 1))
  {
    assert p.parts[..|p.parts|] == p.parts;
    if 0 < k {
      assert p.parts[..|p.parts| - (k - 1)][..|p.parts| - k] == p.parts[..|p.parts| - k];
    }
  }

  /** The directories `p`, `p.parent`, `p.parent.parent`, ... up to, and not
      including, the first one that is its own parent: exactly the
      directories visited by a loop `while d != d.parent: ...; d = d.parent`. */
  function Ancestors(p: Path): (r: seq<Path>)
    ensures |r| == |p.parts|
    decreases |p.parts|
  {
    if Parent(p) == p then [] else [p] + Ancestors(Parent(p))
  }

  /** The `k`-th directory of the upward walk is the start with `k`
      components dropped; it is never its own parent, so neither the root
      nor `.` is ever visited. */
  lemma {:induction false} AncestorsAt(p: Path, k: nat)
    requires k < |p.parts|
    ensures Ancestors(p)[k] == Up(p, k)
    ensures Parent(Ancestors(p)[k]) != Ancestors(p)[k]
    decreases |p.parts|
  {
    if k > 0 {
      AncestorsAt(Parent(p), k - 1);
      assert Ancestors(p)[k] == Ancestors(Parent(p))[k - 1];
      assert Parent(p).parts[..|Parent(p).parts| - (k - 1)] == p.parts[..|p.parts| - k];
    }
  }

  /** The walk from a sub-directory `p / sub[0] / ... ` first visits the
      `|sub|` directories below `p` and then continues exactly as the walk
      from `p`. */
  lemma {:induction false} AncestorsOfSubdirectory(p: Path, sub: seq<string>)
    ensures Ancestors(Path(p.absolute, p.parts + sub))[|sub|..] == Ancestors(p)
    decreases |sub|
  {
    var q := Path(p.absolute, p.parts + sub);
    if sub != [] {
      var shorter := sub[..|sub| - 1];
      assert Parent(q) == Path(p.absolute, p.parts + shorter) by {
        assert (p.parts + sub)[..|p.parts + sub| - 1] == p.parts + shorter;
      }
      AncestorsOfSubdirectory(p, shorter);
      assert Ancestors(q) == [q] + Ancestors(Parent(q));
    } else {
      assert p.parts + sub == p.parts;
    }
  }

  // ---------------------------------------------------------------------
  // Strings and paths

  /** `s.split("/")`: the pieces between separators, empty ones included. */
  function Split(s: string): (r: seq<string>)
    ensures |r| >= 1
    ensures forall i :: 0 <= i < |r| ==> '/' !in r[i]
    ensures '/' !in s ==> r == [s]
    decreases |s|
  {
    if s == [] then [""]
    else
      var rest := Split(s[1..]);
      if s[0] == '/' then [""] + rest
      else
        assert '/' !in s ==> [s[0]] + s[1..] == s;
        [[s[0]] + rest[0]] + rest[1..]
  }

  /** `"/".join(pieces)` */
  function JoinParts(pieces: seq<string>): string
    decreases |pieces|
  {
    if |pieces| == 0 then ""
    else if |pieces| == 1 then pieces[0]
    else pieces[0] + "/" + JoinParts(pieces[1..])
  }

  lemma {:induction false} JoinPartsCons(c: char, pieces: seq<string>)
    requires |pieces| >= 1
    ensures JoinParts([[c] + pieces[0]] + pieces[1..]) == [c] + JoinParts(pieces)
  {
    var ps := [[c] + pieces[0]] + pieces[1..];
    if |pieces| > 1 {
      assert ps[1..] == pieces[1..];
    }
  }

  /** Joining the pieces of a split gives back the string. */
  lemma {:induction false} JoinSplit(s: string)
    ensures JoinParts(Split(s)) == s
    decreases |s|
  {
    if s != [] {
      var rest := Split(s[1..]);
      JoinSplit(s[1..]);
      if s[0] == '/' {
        assert ([""] + rest)[1..] == rest;
        assert s == [s[0]] + s[1..];
      } else {
        JoinPartsCons(s[0], rest);
        assert s == [s[0]] + s[1..];
      }
    }
  }

  lemma {:induction false} SplitAfterSeparator(a: string, b: string)
    requires '/' !in a
    ensures Split(a + "/" + b) == [a] + Split(b)
    decreases |a|
  {
    if a == [] {
      assert a + "/" + b == "/" + b;
      assert ("/" + b)[1..] == b;
    } else {
      var s := a + "/" + b;
      assert s[0] == a[0] && s[1..] == a[1..] + "/" + b;
      SplitAfterSeparator(a[1..], b);
      assert [a[0]] + a[1..] == a;
    }
  }

  /** Splitting a join of separator-free pieces gives back the pieces. */
  lemma {:induction false} SplitJoin(pieces: seq<string>)
    requires |pieces| >= 1
    requires forall i :: 0 <= i < |pieces| ==> '/' !in pieces[i]
    ensures Split(JoinParts(pieces)) == pieces
    decreases |pieces|
  {
    if |pieces| > 1 {
      SplitAfterSeparator(pieces[0], JoinParts(pieces[1..]));
      SplitJoin(pieces[1..]);
      assert [pieces[0]] + pieces[1..] == pieces;
    }
  }

  /** The pieces of a split that name a step: `pathlib` drops empty pieces
      (from doubled or trailing separators) and `.` pieces. */
  function Components(pieces: seq<string>): (r: seq<string>)
    ensures |r| <= |pieces|
    ensures (forall i :: 0 <= i < |pieces| ==> '/' !in pieces[i]) ==>
              forall i :: 0 <= i < |r| ==> IsComponent(r[i])
    decreases |pieces|
  {
    if pieces == [] then []
    else if pieces[0] == "" || pieces[0] == "." then Components(pieces[1..])
    else [pieces[0]] + Components(pieces[1..])
  }

  lemma {:induction false} ComponentsOfClean(pieces: seq<string>)
    requires forall i :: 0 <= i < |pieces| ==> IsComponent(pieces[i])
    ensures Components(pieces) == pieces
    decreases |pieces|
  {
    if pieces != [] {
      ComponentsOfClean(pieces[1..]);
      assert [pieces[0]] + pieces[1..] == pieces;
    }
  }

  /** Dropping pieces works piece by piece: the pieces of a concatenation are
      those of each part, in order. */
  lemma {:induction false} ComponentsAppend(a: seq<string>, b: seq<string>)
    ensures Components(a + b) == Components(a) + Components(b)
    decreases |a|
  {
    if a == [] {
      assert a + b == b;
    } else {
      assert (a + b)[1..] == a[1..] + b;
      ComponentsAppend(a[1..], b);
    }
  }

  /** A single piece is dropped exactly when it is empty or `.`. */
  lemma ComponentsOne(x: string)
    ensures Components([x]) == if x == "" || x == "." then [] else [x]
  {
    assert [x][1..] == [];
  }

  /** A trailing separator names no component: `Path("/a/")` is `/a`. */
  lemma ParseTrailingSeparator(a: string)
    requires IsComponent(a)
    ensures ParsePath("/" + a + "/") == Path(true, [a])
  {
    var s := "/" + a + "/";
    assert s == "" + "/" + (a + "/" + "");
    SplitAfterSeparator("", a + "/" + "");
    SplitAfterSeparator(a, "");
    assert Split(s) == [""] + ([a] + [""]);
    ComponentsAppend([""], [a] + [""]);
    ComponentsAppend([a], [""]);
    ComponentsOne("");
    ComponentsOne(a);
    assert s[0] == '/';
  }

  /** Doubled separators and `.` steps name no component: `Path("/a//./b")`
      is `/a/b`. */
  lemma ParseDoubledSeparator(a: string, b: string)
    requires IsComponent(a) && IsComponent(b)
    ensures ParsePath("/" + a + "//./" + b) == Path(true, [a, b])
  {
    var s := "/" + a + "//./" + b;
    assert s == "" + "/" + (a + "/" + ("" + "/" + ("." + "/" + b)));
    SplitDoubledSeparator(a, b);
    ComponentsDoubledSeparator(a, b);
    assert s[0] == '/';
  }

  lemma SplitDoubledSeparator(a: string, b: string)
    requires '/' !in a && '/' !in b
    ensures Split("" + "/" + (a + "/" + ("" + "/" + ("." + "/" + b)))) == [""] + ([a] + ([""] + (["."] + [b])))
  {
    SplitAfterSeparator("", a + "/" + ("" + "/" + ("." + "/" + b)));
    SplitAfterSeparator(a, "" + "/" + ("." + "/" + b));
    SplitAfterSeparator("", "." + "/" + b);
    SplitAfterSeparator(".", b);
  }

  lemma ComponentsDoubledSeparator(a: string, b: string)
    requires IsComponent(a) && IsComponent(b)
    ensures Components([""] + ([a] + ([""] + (["."] + [b])))) == [a, b]
  {
    ComponentsAppend([""], [a] + ([""] + (["."] + [b])));
    ComponentsAppend([a], [""] + (["."] + [b]));
    ComponentsAppend([""], ["."] + [b]);
    ComponentsAppend(["."], [b]);
    ComponentsOne("");
    ComponentsOne(a);
    ComponentsOne(".");
    ComponentsOne(b);
    assert [a] + [b] == [a, b];
  }

  /** `Path(s)`: a leading `/` anchors the path at the root; the components
      are the non-empty, non-`.` pieces between separators. */
  function ParsePath(s: string): (r: Path)
    ensures WellFormed(r)
    ensures r.absolute <==> (s != [] && s[0] == '/')
  {
    Path(s != [] && s[0] == '/', Components(Split(s)))
  }

  /** `str(p)`: the root, then the components joined by `/`; `.` for the
      empty relative path. */
  function Render(p: Path): string {
    if p.absolute then "/" + JoinParts(p.parts)
    else if p.parts == [] then "."
    else JoinParts(p.parts)
  }

  /** Printing a well-formed path and reading it back gives the same path. */
  lemma ParseRender(p: Path)
    requires WellFormed(p)
    ensures ParsePath(Render(p)) == p
  {
    var s := Render(p);
    if p.absolute {
      assert s[0] == '/' && s[1..] == JoinParts(p.parts);
      if p.parts == [] {
        assert s == "/" && s[1..] == "";
        assert Split(s) == ["", ""];
        assert Components(["", ""]) == Components([""]) == [];
      } else {
        SplitJoin(p.parts);
        assert Split(s) == [""] + p.parts;
        ComponentsOfClean(p.parts);
        assert Components([""] + p.parts) == Components(p.parts);
      }
    } else if p.parts == [] {
      assert Split(".") == ["."];
    } else {
      SplitJoin(p.parts);
      ComponentsOfClean(p.parts);
      assert IsComponent(p.parts[0]);
      assert s == JoinParts(p.parts);
      JoinPartsHead(p.parts);
    }
  }

  lemma {:induction false} JoinPartsHead(pieces: seq<string>)
    requires |pieces| >= 1 && pieces[0] != ""
    ensures JoinParts(pieces) != [] && JoinParts(pieces)[0] == pieces[0][0]
  {
  }

  /** Printing is injective on well-formed paths, so an activator path can be
      recovered from the command text that names it. */
  lemma RenderInjective(p: Path, q: Path)
    requires WellFormed(p) && WellFormed(q)
    ensures Render(p) == Render(q) <==> p == q
  {
    if Render(p) == Render(q) {
      ParseRender(p);
      ParseRender(q);
    }
  }

  /** `Path(str(Path(s)))` is `Path(s)`: parsing normalises once and for all. */
  lemma ParseIdempotent(s: string)
    ensures ParsePath(Render(ParsePath(s))) == ParsePath(s)
  {
    ParseRender(ParsePath(s));
  }

  /** `str(p / name)`: the name follows a separator, except after `.`, which
      disappears, and after the root, which is already a separator. */
  lemma RenderJoin(p: Path, name: string)
    ensures Render(Join(p, name)) ==
      if p == Here then name
      else if p == Root then "/" + name
      else Render(p) + "/" + name
  {
    if p.parts != [] {
      JoinPartsSnoc(p.parts, name);
    }
  }

  lemma {:induction false} JoinPartsSnoc(pieces: seq<string>, name: string)
    requires |pieces| >= 1
    ensures JoinParts(pieces + [name]) == JoinParts(pieces) + "/" + name
    decreases |pieces|
  {
    if |pieces| > 1 {
      JoinPartsSnoc(pieces[1..], name);
      assert (pieces + [name])[1..] == pieces[1..] + [name];
    } else {
      assert (pieces + [name])[1..] == [name];
    }
  }
}
