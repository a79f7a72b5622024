/** The older server's sandbox join: join the parts onto the root as given,
    resolve, and refuse the result unless its text starts with the text of the
    root. The root is not resolved, and the test compares characters, not
    components. */
module LegacySandboxPaths {

  import opened Strings
  import opened PurePaths
  import SandboxPaths

  const DENIED: string := "Access outside the sandbox is not allowed."

  /** safe_join(root, *parts), with `cwd` the working directory that
      `resolve()` uses for a relative path. */
  function SafeJoin(root: PurePath, parts: seq<string>, cwd: seq<string>): (r: Joined)
    requires WellFormed(root) && IsResolved(cwd)
    // The resolved join is returned unchanged when its text extends the root's
    // text, and PermissionError is raised exactly when it does not.
    ensures var target := Resolve(Combine(root, PathOf(parts)), cwd);
      && (r.Joined? <==> StartsWith(Render(target), Str(root)))
      && (r.Joined? ==> r.path == target && IsResolved(r.path))
      && (r.PermissionError? ==> r.message == DENIED)
  {
    var newPath := Resolve(Combine(root, PathOf(parts)), cwd);
    if StartsWith(Render(newPath), Str(root)) then Joined(newPath) else PermissionError(DENIED)
  }

  /** ".." is resolved before the test here too: "a/../b" is joined as "b" is. */
  lemma DotDotCollapsed(root: PurePath, a: string, b: string, cwd: seq<string>)
    requires WellFormed(root) && IsResolved(cwd) && IsName(a)
    requires b == [] || b[0] != '/'
    ensures SafeJoin(root, [a + "/../" + b], cwd) == SafeJoin(root, [b], cwd)
  {
    JoinCollapsesDotDot(root, a, b, cwd);
  }

  /** With a relative root, whose text never starts with "/", every join is
      refused: the resolved path is absolute. */
  lemma RelativeRootRefusesAll(root: PurePath, parts: seq<string>, cwd: seq<string>)
    requires WellFormed(root) && IsResolved(cwd) && !root.absolute
    ensures SafeJoin(root, parts, cwd).PermissionError?
  {
    var target := Resolve(Combine(root, PathOf(parts)), cwd);
    if root.parts != [] {
      JoinTextFirst(root.parts);
    }
    assert Str(root)[0] != '/';
    assert Render(target)[0] == '/';
  }

  /** For a root that is already resolved, whatever the component-wise check
      admits, the prefix check admits too, and both return the same path. */
  lemma StrictAdmitsImpliesLegacyAdmits(root: seq<string>, parts: seq<string>, cwd: seq<string>)
    requires IsResolved(root) && IsResolved(cwd)
    requires SandboxPaths.SafeJoin(PurePath(true, root), parts, cwd).Joined?
    ensures SafeJoin(PurePath(true, root), parts, cwd) == SandboxPaths.SafeJoin(PurePath(true, root), parts, cwd)
  {
    var target := Resolve(Combine(PurePath(true, root), PathOf(parts)), cwd);
    ResolveResolved(root, cwd);
    RenderPrefix(root, target);
  }

  /** "/".join of a list whose last part is extended extends the text. */
  lemma JoinTextExtendLast(init: seq<string>, last: string, suffix: string)
    ensures JoinText(init + [last + suffix]) == JoinText(init + [last]) + suffix
  {
    if init != [] {
      JoinTextAppend(init, [last + suffix]);
      JoinTextAppend(init, [last]);
    }
  }

  /** A sibling whose name extends the root's last name is admitted by the
      prefix check, though the component-wise check refuses it. */
  lemma SiblingAdmitted(root: seq<string>, suffix: string, rest: seq<string>, cwd: seq<string>)
    requires IsResolved(root) && root != [] && IsResolved(rest) && IsResolved(cwd)
    requires suffix != "" && '/' !in suffix
    ensures var sibling := root[..|root| - 1] + [root[|root| - 1] + suffix] + rest;
      && SafeJoin(PurePath(true, root), [Render(sibling)], cwd) == Joined(sibling)
      && SandboxPaths.SafeJoin(PurePath(true, root), [Render(sibling)], cwd).PermissionError?
  {
    var init := root[..|root| - 1];
    var last := root[|root| - 1];
    var name := last + suffix;
    var sibling := init + [name] + rest;
    assert IsName(name) by {
      assert last[0] == name[0] && |name| >= 2;
      forall k | 0 <= k < |name| ensures name[k] != '/' {
        if k < |last| { assert name[k] == last[k]; } else { assert name[k] == suffix[k - |last|]; }
      }
    }
    assert IsResolved(sibling) by {
      forall i | 0 <= i < |sibling| ensures IsName(sibling[i]) {
        if i < |init| { assert sibling[i] == root[i]; }
        else if i == |init| { assert sibling[i] == name; }
        else { assert sibling[i] == rest[i - |root|]; }
      }
    }
    // The text of the root is a prefix of the text of the sibling.
    assert init + [last] == root;
    JoinTextExtendLast(init, last, suffix);
    assert StartsWith(Render(init + [name]), Render(root));
    assert StartsWith(Render(sibling), Render(init + [name])) by {
      if rest != [] {
        JoinTextAppend(init + [name], rest);
      } else {
        assert sibling == init + [name];
      }
    }
    StartsWithTransitive(Render(sibling), Render(init + [name]), Render(root));
    ParseRender(sibling);
    PathOfOne(Render(sibling));
    ResolveResolved(sibling, cwd);
    SandboxPaths.SiblingRefused(root, name, rest, cwd);
  }

  /** The example the strict version's documentation names: with the sandbox at
      "/a/sandbox", "/a/sandbox2/x" is admitted here and refused there. */
  lemma SiblingExample(cwd: seq<string>)
    requires IsResolved(cwd)
    ensures SafeJoin(PurePath(true, ["a", "sandbox"]), ["/a/sandbox2/x"], cwd).Joined?
    ensures SandboxPaths.SafeJoin(PurePath(true, ["a", "sandbox"]), ["/a/sandbox2/x"], cwd).PermissionError?
  {
    var root := ["a", "sandbox"];
    assert root[..1] == ["a"];
    assert root[1] + "2" == "sandbox2";
    assert root[..1] + [root[1] + "2"] + ["x"] == ["a", "sandbox2", "x"];
    assert Render(["a", "sandbox2", "x"]) == "/a/sandbox2/x";
    SiblingAdmitted(root, "2", ["x"], cwd);
  }

  /** The root is compared as spelled: a root written "/a/../sandbox" refuses
      even the sandbox itself, which the strict version admits. */
  lemma UnresolvedRootExample(cwd: seq<string>)
    requires IsResolved(cwd)
    ensures SafeJoin(PurePath(true, ["a", "..", "sandbox"]), [], cwd).PermissionError?
    ensures SandboxPaths.SafeJoin(PurePath(true, ["a", "..", "sandbox"]), [], cwd) == Joined(["sandbox"])
  {
    var root := PurePath(true, ["a", "..", "sandbox"]);
    assert Resolve(root, cwd) == ["sandbox"];
    assert Combine(root, PathOf([])) == root;
    assert Str(root) == "/a/../sandbox";
    assert Render(["sandbox"]) == "/sandbox";
  }
}
