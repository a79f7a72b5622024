/** The file-operations server's sandbox join: resolve the root, join the
    parts onto it, resolve the result, and refuse it unless the root is the
    result or one of its ancestors, component by component. */
module SandboxPaths {

  import opened PurePaths

  function DeniedMessage(path: seq<string>, root: seq<string>): string {
    "Security Violation: Access denied to '" + Render(path) + "' (Outside sandbox '" + Render(root) + "')"
  }

  /** safe_join(root, *parts), with `cwd` the working directory that
      `resolve()` uses for a relative root. */
  function SafeJoin(root: PurePath, parts: seq<string>, cwd: seq<string>): (r: Joined)
    requires WellFormed(root) && IsResolved(cwd)
    // Success returns a resolved path inside the resolved root.
    ensures r.Joined? ==> IsResolved(r.path) && IsComponentPrefix(Resolve(root, cwd), r.path)
    // It is the same path as joining onto the root as given and resolving once,
    // and the join fails exactly when that path is not under the resolved root.
    ensures var target := Resolve(Combine(root, PathOf(parts)), cwd);
      && (r.Joined? <==> IsComponentPrefix(Resolve(root, cwd), target))
      && (r.Joined? ==> r.path == target)
      && (r.PermissionError? ==> r.message == DeniedMessage(target, Resolve(root, cwd)))
  {
    var resolvedRoot := Resolve(root, cwd);
    var newPath := Resolve(Combine(PurePath(true, resolvedRoot), PathOf(parts)), cwd);
    ResolveRootFirst(root, PathOf(parts), cwd);
    if IsComponentPrefix(resolvedRoot, newPath) then Joined(newPath)
    else PermissionError(DeniedMessage(newPath, resolvedRoot))
  }

  /** "a/../b" is joined exactly as "b" is. */
  lemma DotDotCollapsed(root: PurePath, a: string, b: string, cwd: seq<string>)
    requires WellFormed(root) && IsResolved(cwd) && IsName(a)
    requires b == [] || b[0] != '/'
    ensures SafeJoin(root, [a + "/../" + b], cwd) == SafeJoin(root, [b], cwd)
  {
    JoinCollapsesDotDot(root, a, b, cwd);
  }

  /** Joining nothing, or only ".", gives the resolved root, which is inside. */
  lemma NoPartsGivesRoot(root: PurePath, cwd: seq<string>)
    requires WellFormed(root) && IsResolved(cwd)
    ensures SafeJoin(root, [], cwd) == Joined(Resolve(root, cwd))
    ensures SafeJoin(root, ["."], cwd) == Joined(Resolve(root, cwd))
  {
    SplitSegment(".");
    PathOfOne(".");
    assert root.parts + [] == root.parts;
  }

  /** Only the resolved root matters, not how the root was spelled. */
  lemma RootSpellingIrrelevant(root1: PurePath, root2: PurePath, parts: seq<string>, cwd: seq<string>)
    requires WellFormed(root1) && WellFormed(root2) && IsResolved(cwd)
    requires Resolve(root1, cwd) == Resolve(root2, cwd)
    ensures SafeJoin(root1, parts, cwd) == SafeJoin(root2, parts, cwd)
  {
  }

  /** Going above a root that is not "/" is refused. */
  lemma ParentOfRootRefused(root: PurePath, cwd: seq<string>)
    requires WellFormed(root) && IsResolved(cwd)
    requires Resolve(root, cwd) != []
    ensures SafeJoin(root, [".."], cwd).PermissionError?
  {
    var r := Resolve(root, cwd);
    var up := Combine(root, PathOf([".."]));
    assert up.parts == root.parts + [".."] by {
      SplitSegment("..");
      PathOfOne("..");
      assert KeepParts([".."]) == [".."];
    }
    var base := if root.absolute then [] else cwd;
    assert Resolve(up, cwd) == r[..|r| - 1] by {
      NormalizeAppend(base, root.parts, [".."]);
      assert Normalize(r, [".."]) == r[..|r| - 1];
    }
  }

  /** A sibling whose last component differs from the root's is refused, even
      when its name extends the root's name ("/a/sandbox2/x" next to "/a/sandbox"). */
  lemma SiblingRefused(root: seq<string>, sibling: string, rest: seq<string>, cwd: seq<string>)
    requires IsResolved(root) && root != [] && IsResolved(rest) && IsResolved(cwd)
    requires IsName(sibling) && sibling != root[|root| - 1]
    ensures SafeJoin(PurePath(true, root), [Render(root[..|root| - 1] + [sibling] + rest)], cwd).PermissionError?
  {
    var target := root[..|root| - 1] + [sibling] + rest;
    assert IsResolved(target) by {
      forall i | 0 <= i < |target| ensures IsName(target[i]) {
        if i < |root| - 1 { assert target[i] == root[i]; }
        else if i == |root| - 1 { assert target[i] == sibling; }
        else { assert target[i] == rest[i - |root|]; }
      }
    }
    ParseRender(target);
    PathOfOne(Render(target));
    ResolveResolved(target, cwd);
    ResolveResolved(root, cwd);
    assert target[|root| - 1] != root[|root| - 1];
  }
}
