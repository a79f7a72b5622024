/** The part of Python's pathlib that the sandbox joins rely on, on POSIX and
    lexically: parsing a string into a path, the `/` join operator, `resolve()`
    with `.` and `..` collapsed (symbolic links are not modelled), `str()`,
    and the component-wise ancestry test behind `relative_to`. */
module PurePaths {

  import opened Strings

  /** A path as pathlib holds it: whether it starts at the filesystem root, and
      its components in order. */
  datatype PurePath = PurePath(absolute: bool, parts: seq<string>)

  /** The outcome of a sandbox join: the resolved path, or the PermissionError
      raised instead. A resolved path is the list of its components below "/". */
  datatype Joined = Joined(path: seq<string>) | PermissionError(message: string)

  /** A component as pathlib keeps it after parsing: never empty, never ".",
      never holding the separator; ".." is kept. */
  predicate IsPart(c: string) {
    c != "" && c != "." && '/' !in c
  }

  predicate WellFormed(p: PurePath) {
    forall i :: 0 <= i < |p.parts| ==> IsPart(p.parts[i])
  }

  /** A component of a resolved path: a part that is not "..". */
  predicate IsName(c: string) {
    IsPart(c) && c != ".."
  }

  predicate IsResolved(comps: seq<string>) {
    forall i :: 0 <= i < |comps| ==> IsName(comps[i])
  }

  // ---------------------------------------------------------------------------
  // Parsing: `PurePosixPath(s)`.
  // ---------------------------------------------------------------------------

  /** `s.split("/")`. */
  function Split(s: string): (r: seq<string>)
    ensures |r| >= 1
    ensures forall i :: 0 <= i < |r| ==> '/' !in r[i]
  {
    if s == [] then [""]
    else
      var rest := Split(s[1..]);
      if s[0] == '/' then [""] + rest
      else [[s[0]] + rest[0]] + rest[1..]
  }

  /** Empty and "." segments are dropped when a path is parsed. */
  function KeepParts(segments: seq<string>): (r: seq<string>)
    requires forall i :: 0 <= i < |segments| ==> '/' !in segments[i]
    ensures forall i :: 0 <= i < |r| ==> IsPart(r[i])
    ensures |r| <= |segments|
  {
    if segments == [] then []
    else (if segments[0] == "" || segments[0] == "." then [] else [segments[0]]) + KeepParts(segments[1..])
  }

  function Parse(s: string): (p: PurePath)
    ensures WellFormed(p)
    ensures p.absolute <==> |s| > 0 && s[0] == '/'
  {
    PurePath(|s| > 0 && s[0] == '/', KeepParts(Split(s)))
  }

  // ---------------------------------------------------------------------------
  // Joining: `a / b` and `Path(*parts)`.
  // ---------------------------------------------------------------------------

  /** `a / b`: an absolute right-hand side replaces the left-hand side. */
  function Combine(a: PurePath, b: PurePath): (r: PurePath)
    requires WellFormed(a) && WellFormed(b)
    ensures WellFormed(r)
    ensures r.absolute <==> a.absolute || b.absolute
    ensures b.absolute ==> r == b
    ensures !b.absolute ==> r.parts == a.parts + b.parts
  {
    if b.absolute then b else PurePath(a.absolute, a.parts + b.parts)
  }

  /** `Path(*parts)`; with no parts it is the empty relative path ".". */
  function PathOf(parts: seq<string>): (p: PurePath)
    ensures WellFormed(p)
    // The result is absolute exactly when one of the parts is.
    ensures p.absolute <==> exists i :: 0 <= i < |parts| && Parse(parts[i]).absolute
  {
    if parts == [] then PurePath(false, [])
    else Combine(PathOf(parts[..|parts| - 1]), Parse(parts[|parts| - 1]))
  }

  // ---------------------------------------------------------------------------
  // Resolution: `Path.resolve()` without symbolic links.
  // ---------------------------------------------------------------------------

  /** One component of resolution: ".." goes up (and stays at "/" at the top). */
  function Step(acc: seq<string>, c: string): seq<string> {
    if c != ".." then acc + [c]
    else if acc == [] then []
    else acc[..|acc| - 1]
  }

  function Normalize(acc: seq<string>, comps: seq<string>): (r: seq<string>)
    requires IsResolved(acc)
    requires forall i :: 0 <= i < |comps| ==> IsPart(comps[i])
    ensures IsResolved(r)
    decreases comps
  {
    if comps == [] then acc else Normalize(Step(acc, comps[0]), comps[1..])
  }

  /** A relative path is resolved from the working directory `cwd`. */
  function Resolve(p: PurePath, cwd: seq<string>): (r: seq<string>)
    requires WellFormed(p) && IsResolved(cwd)
    ensures IsResolved(r)
  {
    Normalize(if p.absolute then [] else cwd, p.parts)
  }

  // ---------------------------------------------------------------------------
  // Text form: `str(path)`.
  // ---------------------------------------------------------------------------

  /** `"/".join(comps)`. */
  function JoinText(comps: seq<string>): string {
    if comps == [] then ""
    else if |comps| == 1 then comps[0]
    else comps[0] + "/" + JoinText(comps[1..])
  }

  /** `str()` of a resolved path. */
  function Render(comps: seq<string>): string {
    "/" + JoinText(comps)
  }

  /** `str()` of any path. */
  function Str(p: PurePath): (s: string)
    ensures p.absolute ==> s != "" && s[0] == '/'
  {
    if p.absolute then "/" + JoinText(p.parts)
    else if p.parts == [] then "."
    else JoinText(p.parts)
  }

  /** `b.relative_to(a)` succeeds: `a` is `b` or one of its ancestors. */
  predicate IsComponentPrefix(a: seq<string>, b: seq<string>): (r: bool)
    ensures r <==> exists rest :: b == a + rest
  {
    assert |a| <= |b| && b[..|a|] == a ==> b == a + b[|a|..];
    |a| <= |b| && b[..|a|] == a
  }

  // ---------------------------------------------------------------------------
  // Lemmas.
  // ---------------------------------------------------------------------------

  /** Resolution is a left fold: resolving `a + b` resolves `a`, then `b` from there. */
  lemma {:induction false} NormalizeAppend(acc: seq<string>, a: seq<string>, b: seq<string>)
    requires IsResolved(acc)
    requires forall i :: 0 <= i < |a| ==> IsPart(a[i])
    requires forall i :: 0 <= i < |b| ==> IsPart(b[i])
    ensures forall i :: 0 <= i < |a + b| ==> IsPart((a + b)[i])
    ensures Normalize(acc, a + b) == Normalize(Normalize(acc, a), b)
    decreases a
  {
    assert forall i :: 0 <= i < |a + b| ==> IsPart((a + b)[i]) by {
      forall i | 0 <= i < |a + b| ensures IsPart((a + b)[i]) {
        if i < |a| { assert (a + b)[i] == a[i]; } else { assert (a + b)[i] == b[i - |a|]; }
      }
    }
    if a == [] {
      assert a + b == b;
    } else {
      assert (a + b)[1..] == a[1..] + b;
      NormalizeAppend(Step(acc, a[0]), a[1..], b);
    }
  }

  /** Already resolved components resolve to themselves. */
  lemma {:induction false} NormalizeResolved(acc: seq<string>, comps: seq<string>)
    requires IsResolved(acc) && IsResolved(comps)
    ensures Normalize(acc, comps) == acc + comps
    decreases comps
  {
    if comps != [] {
      calc {
        Normalize(acc, comps);
        { assert comps[0] != ".."; }
        Normalize(acc + [comps[0]], comps[1..]);
        { NormalizeResolved(acc + [comps[0]], comps[1..]); }
        acc + [comps[0]] + comps[1..];
        { assert [comps[0]] + comps[1..] == comps; }
        acc + comps;
      }
    }
  }

  /** A resolved path, taken as an absolute path, resolves to itself. */
  lemma ResolveResolved(r: seq<string>, cwd: seq<string>)
    requires IsResolved(r) && IsResolved(cwd)
    ensures Resolve(PurePath(true, r), cwd) == r
  {
    NormalizeResolved([], r);
  }

  /** Joining onto a path or onto its resolved form resolves to the same path. */
  lemma ResolveRootFirst(root: PurePath, tail: PurePath, cwd: seq<string>)
    requires WellFormed(root) && WellFormed(tail) && IsResolved(cwd)
    ensures Resolve(Combine(PurePath(true, Resolve(root, cwd)), tail), cwd) == Resolve(Combine(root, tail), cwd)
  {
    if !tail.absolute {
      var base := if root.absolute then [] else cwd;
      var r := Resolve(root, cwd);
      NormalizeAppend(base, root.parts, tail.parts);
      NormalizeAppend([], r, tail.parts);
      NormalizeResolved([], r);
      assert [] + r == r;
    }
  }

  /** A name followed by ".." cancels out. */
  lemma NameThenParent(acc: seq<string>, a: string, rest: seq<string>)
    requires IsResolved(acc) && IsName(a)
    requires forall i :: 0 <= i < |rest| ==> IsPart(rest[i])
    ensures forall i :: 0 <= i < |[a, ".."] + rest| ==> IsPart(([a, ".."] + rest)[i])
    ensures Normalize(acc, [a, ".."] + rest) == Normalize(acc, rest)
  {
    NormalizeAppend(acc, [a, ".."], rest);
    assert (acc + [a])[..|acc|] == acc;
  }

  /** Splitting is compatible with concatenation around a separator. */
  lemma {:induction false} SplitAround(x: string, y: string)
    ensures Split(x + "/" + y) == Split(x) + Split(y)
  {
    if x == [] {
      assert x + "/" + y == "/" + y;
      assert ("/" + y)[1..] == y;
    } else {
      assert (x + "/" + y)[1..] == x[1..] + "/" + y;
      SplitAround(x[1..], y);
    }
  }

  /** Text without a separator is one segment. */
  lemma {:induction false} SplitSegment(x: string)
    requires '/' !in x
    ensures Split(x) == [x]
  {
    if x != [] {
      SplitSegment(x[1..]);
      assert [x[0]] + x[1..] == x;
    }
  }

  /** Dropping empty and "." segments distributes over concatenation. */
  lemma {:induction false} KeepPartsAppend(a: seq<string>, b: seq<string>)
    requires forall i :: 0 <= i < |a| ==> '/' !in a[i]
    requires forall i :: 0 <= i < |b| ==> '/' !in b[i]
    ensures forall i :: 0 <= i < |a + b| ==> '/' !in (a + b)[i]
    ensures KeepParts(a + b) == KeepParts(a) + KeepParts(b)
  {
    assert forall i :: 0 <= i < |a + b| ==> '/' !in (a + b)[i] by {
      forall i | 0 <= i < |a + b| ensures '/' !in (a + b)[i] {
        if i < |a| { assert (a + b)[i] == a[i]; } else { assert (a + b)[i] == b[i - |a|]; }
      }
    }
    if a == [] {
      assert a + b == b;
    } else {
      assert (a + b)[1..] == a[1..] + b;
      KeepPartsAppend(a[1..], b);
      var head := if a[0] == "" || a[0] == "." then [] else [a[0]];
      assert KeepParts(a + b) == head + KeepParts(a[1..] + b);
      assert KeepParts(a) == head + KeepParts(a[1..]);
    }
  }

  /** "a/../b" splits into "a", ".." and the segments of "b". */
  lemma SplitDotDot(a: string, b: string)
    requires '/' !in a
    ensures Split(a + "/../" + b) == [a, ".."] + Split(b)
  {
    var tail := ".." + "/" + b;
    calc {
      Split(a + "/../" + b);
      { assert a + "/../" + b == a + "/" + tail; }
      Split(a + "/" + tail);
      { SplitAround(a, tail); }
      Split(a) + Split(tail);
      { SplitSegment(a); }
      [a] + Split(tail);
      { SplitAround("..", b); SplitSegment(".."); }
      [a] + ([".."] + Split(b));
      [a, ".."] + Split(b);
    }
  }

  /** A name and ".." in front of some segments are both kept. */
  lemma KeepNameDotDot(a: string, segments: seq<string>)
    requires IsName(a)
    requires forall i :: 0 <= i < |segments| ==> '/' !in segments[i]
    ensures forall i :: 0 <= i < |[a, ".."] + segments| ==> '/' !in ([a, ".."] + segments)[i]
    ensures KeepParts([a, ".."] + segments) == [a, ".."] + KeepParts(segments)
  {
    calc {
      KeepParts([a, ".."] + segments);
      { assert [a, ".."] + segments == [a] + ([".."] + segments); }
      KeepParts([a] + ([".."] + segments));
      { KeepPartsAppend([".."], segments); KeepPartsAppend([a], [".."] + segments); }
      KeepParts([a]) + KeepParts([".."] + segments);
      { KeepPartsAppend([".."], segments); }
      KeepParts([a]) + (KeepParts([".."]) + KeepParts(segments));
      { assert KeepParts([a]) == [a]; assert KeepParts([".."]) == [".."]; }
      [a] + ([".."] + KeepParts(segments));
      [a, ".."] + KeepParts(segments);
    }
  }

  /** Parsing the text of a relative path "a/../b" keeps all three steps. */
  lemma ParseDotDot(a: string, b: string)
    requires IsName(a)
    requires b == [] || b[0] != '/'
    ensures Parse(a + "/../" + b) == PurePath(false, [a, ".."] + Parse(b).parts)
  {
    var s := a + "/../" + b;
    SplitDotDot(a, b);
    KeepNameDotDot(a, Split(b));
    assert s[0] == a[0];
  }

  /** `Path(x)` is the parse of `x`. */
  lemma PathOfOne(x: string)
    ensures PathOf([x]) == Parse(x)
  {
    assert [x][..0] == [];
    assert [] + Parse(x).parts == Parse(x).parts;
  }

  /** A one-part join of "a/../b" lands where the join of "b" lands. */
  lemma JoinCollapsesDotDot(root: PurePath, a: string, b: string, cwd: seq<string>)
    requires WellFormed(root) && IsResolved(cwd) && IsName(a)
    requires b == [] || b[0] != '/'
    ensures Resolve(Combine(root, PathOf([a + "/../" + b])), cwd) == Resolve(Combine(root, PathOf([b])), cwd)
  {
    PathOfOne(a + "/../" + b);
    PathOfOne(b);
    ParseDotDot(a, b);
    var pb := Parse(b).parts;
    var base := if root.absolute then [] else cwd;
    var here := Normalize(base, root.parts);
    calc {
      Resolve(Combine(root, PathOf([a + "/../" + b])), cwd);
      Normalize(base, root.parts + ([a, ".."] + pb));
      { NormalizeAppend(base, root.parts, [a, ".."] + pb); }
      Normalize(here, [a, ".."] + pb);
      { NameThenParent(here, a, pb); }
      Normalize(here, pb);
      { NormalizeAppend(base, root.parts, pb); }
      Normalize(base, root.parts + pb);
      Resolve(Combine(root, PathOf([b])), cwd);
    }
  }

  /** "/".join of two non-empty lists puts one separator between them. */
  lemma {:induction false} JoinTextAppend(a: seq<string>, b: seq<string>)
    requires a != [] && b != []
    ensures JoinText(a + b) == JoinText(a) + "/" + JoinText(b)
  {
    if |a| == 1 {
      assert (a + b)[1..] == b;
    } else {
      assert (a + b)[1..] == a[1..] + b;
      JoinTextAppend(a[1..], b);
    }
  }

  /** The text of a resolved path parses back to that path. */
  lemma {:induction false} SplitJoinText(comps: seq<string>)
    requires comps != []
    requires forall i :: 0 <= i < |comps| ==> '/' !in comps[i]
    ensures Split(JoinText(comps)) == comps
  {
    if |comps| == 1 {
      SplitSegment(comps[0]);
    } else {
      SplitAround(comps[0], JoinText(comps[1..]));
      SplitSegment(comps[0]);
      SplitJoinText(comps[1..]);
    }
  }

  lemma {:induction false} KeepPartsNames(comps: seq<string>)
    requires forall i :: 0 <= i < |comps| ==> comps[i] != "" && comps[i] != "." && '/' !in comps[i]
    ensures KeepParts(comps) == comps
  {
    if comps != [] {
      KeepPartsNames(comps[1..]);
    }
  }

  lemma ParseRender(comps: seq<string>)
    requires forall i :: 0 <= i < |comps| ==> IsPart(comps[i])
    ensures Parse(Render(comps)) == PurePath(true, comps)
  {
    if comps == [] {
      assert Render(comps) == "/";
      assert Split("/") == ["", ""];
    } else {
      assert Render(comps) == "" + "/" + JoinText(comps);
      SplitAround("", JoinText(comps));
      SplitJoinText(comps);
      KeepPartsNames(comps);
      assert Split(Render(comps)) == [""] + comps;
    }
  }

  /** An ancestor's text is a prefix of its descendant's text. */
  lemma RenderPrefix(a: seq<string>, b: seq<string>)
    requires IsComponentPrefix(a, b)
    ensures StartsWith(Render(b), Render(a))
  {
    var d := b[|a|..];
    assert b == a + d;
    if a != [] && d != [] {
      JoinTextAppend(a, d);
    } else if d == [] {
      assert b == a;
    }
  }

  /** The text of a list of parts starts with the first character of its first part. */
  lemma JoinTextFirst(comps: seq<string>)
    requires comps != [] && comps[0] != ""
    ensures JoinText(comps) != "" && JoinText(comps)[0] == comps[0][0]
  {
  }

  /** `str()` of any path parses back to that path. */
  lemma ParseStr(p: PurePath)
    requires WellFormed(p)
    ensures Parse(Str(p)) == p
  {
    if p.absolute {
      ParseRender(p.parts);
    } else if p.parts == [] {
      SplitSegment(".");
    } else {
      SplitJoinText(p.parts);
      KeepPartsNames(p.parts);
      JoinTextFirst(p.parts);
    }
  }

  /** `(x / y) / z` is `x / (y / z)`. */
  lemma CombineAssociative(x: PurePath, y: PurePath, z: PurePath)
    requires WellFormed(x) && WellFormed(y) && WellFormed(z)
    ensures WellFormed(Combine(x, y)) && WellFormed(Combine(y, z))
    ensures Combine(Combine(x, y), z) == Combine(x, Combine(y, z))
  {
    if !z.absolute && !y.absolute {
      assert (x.parts + y.parts) + z.parts == x.parts + (y.parts + z.parts);
    }
  }

  /** `Path(*a, *b)` is `Path(*a) / Path(*b)`. */
  lemma {:induction false} PathOfAppend(a: seq<string>, b: seq<string>)
    ensures PathOf(a + b) == Combine(PathOf(a), PathOf(b))
    decreases |b|
  {
    if b == [] {
      assert a + b == a;
      assert PathOf(a).parts + [] == PathOf(a).parts;
    } else {
      var init := b[..|b| - 1];
      var last := Parse(b[|b| - 1]);
      calc {
        PathOf(a + b);
        { assert (a + b)[..|a + b| - 1] == a + init; assert (a + b)[|a + b| - 1] == b[|b| - 1]; }
        Combine(PathOf(a + init), last);
        { PathOfAppend(a, init); }
        Combine(Combine(PathOf(a), PathOf(init)), last);
        { CombineAssociative(PathOf(a), PathOf(init), last); }
        Combine(PathOf(a), Combine(PathOf(init), last));
        Combine(PathOf(a), PathOf(b));
      }
    }
  }
}
