/** vfs.c: how a path is cut into components, and what a new directory does to the paths that resolve. */
module VfsPaths {
  import opened Wrappers
  import opened NamespaceTree

  const DIRNAME: nat := 256

  /** How many of the next `limit` characters come before a slash. */
  function ChunkLength(s: string, limit: nat): (n: nat)
    ensures n <= |s| && n <= limit && forall i | 0 <= i < n :: s[i] != '/'
    ensures n < |s| && n < limit ==> s[n] == '/'
  {
    if s == [] || limit == 0 || s[0] == '/' then 0 else 1 + ChunkLength(s[1..], limit - 1)
  }

  /** What is left after a component and the slash behind it. */
  function AfterChunk(s: string): (r: string)
    requires s != []
    ensures |r| < |s|
  {
    var n := ChunkLength(s, COMPONENT);
    if n < |s| && s[n] == '/' then s[n + 1..] else s[n..]
  }

  /** The next component, if it is not empty. */
  function FirstOf(s: string): seq<string>
  {
    var n := ChunkLength(s, COMPONENT);
    if n == 0 then [] else [s[..n]]
  }

  /** The components of a path: empty ones are dropped, a long one is cut every 255 characters. */
  function Components(s: string): seq<string>
  {
    if s == [] then [] else FirstOf(s) + Components(AfterChunk(s))
  }

  lemma {:induction false} ChunkLengthIs(s: string, limit: nat, n: nat)
    requires n <= |s| && n <= limit && forall i | 0 <= i < n :: s[i] != '/'
    requires n < |s| && n < limit ==> s[n] == '/'
    ensures ChunkLength(s, limit) == n
  {
    if n > 0 {
      ChunkLengthIs(s[1..], limit - 1, n - 1);
    }
  }

  /** Cutting at a slash splits the components. */
  lemma {:induction false} ComponentsSplit(a: string, b: string)
    ensures Components(a + "/" + b) == Components(a) + Components(b)
    decreases |a|
  {
    var s := a + "/" + b;
    if a == "" {
      assert s[0] == '/' && AfterChunk(s) == b && FirstOf(s) == [];
    } else {
      SplitChunk(a, b);
      var rest, c := AfterChunk(a), FirstOf(a);
      assert Components(a) == c + Components(rest);
      assert Components(s) == c + Components(AfterChunk(s));
      if AfterChunk(s) == rest + "/" + b {
        ComponentsSplit(rest, b);
        Regroup(c, Components(rest), Components(b));
      } else {
        assert Components(rest) == [];
        assert c + Components(rest) == c;
      }
    }
  }

  lemma SplitChunk(a: string, b: string)
    requires a != ""
    ensures FirstOf(a + "/" + b) == FirstOf(a)
    ensures var r := AfterChunk(a + "/" + b); r == AfterChunk(a) + "/" + b || (r == b && AfterChunk(a) == "")
  {
    var s, n := a + "/" + b, ChunkLength(a, COMPONENT);
    ChunkLengthIs(s, COMPONENT, n);
    assert s[..n] == a[..n];
    if n < |a| {
      assert AfterChunk(s) == AfterChunk(a) + "/" + b;
    } else {
      assert AfterChunk(s) == b && AfterChunk(a) == "";
    }
  }

  function LastSlash(path: string): (k: int)
    ensures -1 <= k < |path| && (k >= 0 ==> path[k] == '/') && forall i | k < i < |path| :: path[i] != '/'
  {
    if path == [] then -1
    else if path[|path| - 1] == '/' then |path| - 1
    else LastSlash(path[..|path| - 1])
  }

  function Basename(path: string): string
  {
    path[LastSlash(path) + 1..]
  }

  /** Everything before the last slash, the root keeping its own. */
  function Parent(path: string): string
  {
    var k := LastSlash(path);
    if k < 0 then "." else if k == 0 then "/" else path[..k]
  }

  /** The parent as it fits the 256-byte buffer. */
  function Dirname(path: string): string
  {
    if |Parent(path)| >= DIRNAME then Parent(path)[..DIRNAME - 1] else Parent(path)
  }

  function Resolve(t: Tree, root: Option<nat>, path: string): Option<nat>
  {
    if root.None? || path == "" || path[0] != '/' then None else Walk(t, root.value, Components(path[1..]))
  }

  /** One mount-crossing step: a path resolves by its base name from where its parent resolves. */
  lemma ParentThenBase(path: string)
    requires path != "" && path[0] == '/'
    ensures Parent(path) != "" && Parent(path)[0] == '/'
    ensures Components(path[1..]) == Components(Parent(path)[1..]) + Components(Basename(path))
  {
    var k := LastSlash(path);
    if k == 0 {
      assert Components("") == [];
    } else {
      assert path[1..] == path[1..k] + "/" + path[k + 1..];
      ComponentsSplit(path[1..k], path[k + 1..]);
      assert Parent(path)[1..] == path[1..k];
    }
  }

  lemma ComponentsOfName(name: string)
    requires forall i | 0 <= i < |name| :: name[i] != '/'
    ensures name == "" ==> Components(name) == []
    ensures 0 < |name| <= COMPONENT ==> Components(name) == [name]
    ensures COMPONENT < |name| ==> |Components(name)| > 1 && |Components(name)[0]| == COMPONENT
  {
    if 0 < |name| <= COMPONENT {
      ChunkLengthIs(name, COMPONENT, |name|);
      assert AfterChunk(name) == "" && name[..|name|] == name;
    } else if COMPONENT < |name| {
      ChunkLengthIs(name, COMPONENT, COMPONENT);
      var rest := AfterChunk(name);
      assert rest == name[COMPONENT..] && rest[0] != '/';
      assert ChunkLength(rest, COMPONENT) > 0;
    }
  }

  /** Resolving is resolving the parent, then one step by the base name. */
  lemma ResolveByParent(t: Tree, root: Option<nat>, path: string)
    requires 0 < |Basename(path)| <= COMPONENT
    ensures var d := Resolve(t, root, Parent(path));
            Resolve(t, root, path) == if d.None? then None else Step(t, d.value, Basename(path))
  {
    if path != "" && path[0] == '/' {
      ParentThenBase(path);
      ComponentsOfName(Basename(path));
      var p, c := Components(Parent(path)[1..]), Components(path[1..]);
      assert c[..|c| - 1] == p;
    }
  }

  lemma LongNameIsUnknown(t: Tree, d: nat, name: string)
    requires Linked(t) && CHILD_NAME < |name|
    ensures Step(t, d, name).None?
  {
    if Step(t, d, name).Some? {
      var i := StepAt(t, d, name);
    }
  }

  lemma {:induction false} WalkStaysLost(t: Tree, root: nat, p: seq<string>, q: seq<string>)
    requires Walk(t, root, p).None?
    ensures Walk(t, root, p + q).None?
    decreases |q|
  {
    if q == [] {
      assert p + q == p;
    } else {
      assert (p + q)[..|p + q| - 1] == p + q[..|q| - 1];
      WalkStaysLost(t, root, p, q[..|q| - 1]);
    }
  }

  /** Creating `path` in the directory `d` adds exactly this path, or none. */
  lemma CreatedPathIsAdded(t: Tree, root: nat, d: nat, path: string)
    requires Linked(t) && d < |t| && root < |t| && path != "" && path[0] == '/'
    ensures IsAdded(t, root, d, Basename(path), Components(path[1..])) <==>
            && 0 < |Basename(path)| <= CHILD_NAME
            && Resolve(t, Some(root), Parent(path)) == Some(d) && Step(t, d, Basename(path)).None?
  {
    var base, p, c := Basename(path), Components(Parent(path)[1..]), Components(path[1..]);
    ParentThenBase(path);
    ComponentsOfName(base);
    assert Resolve(t, Some(root), Parent(path)) == Walk(t, root, p);
    if base == "" {
      EmptyNameIsUnused(path[1..]);
      EmptyIsNotAdded(t, root, d, c);
    } else if |base| <= COMPONENT {
      AddedBehind(t, root, d, base, p);
    } else {
      LongIsNotAdded(t, root, d, base, p, Components(base));
    }
  }

  lemma AddedBehind(t: Tree, root: nat, d: nat, name: string, p: seq<string>)
    ensures IsAdded(t, root, d, name, p + [name]) <==>
            |name| <= CHILD_NAME && Walk(t, root, p) == Some(d) && Step(t, d, name).None?
  {
    var c := p + [name];
    assert c[..|c| - 1] == p && c[|c| - 1] == name;
  }

  lemma EmptyIsNotAdded(t: Tree, root: nat, d: nat, c: seq<string>)
    requires "" !in c
    ensures !IsAdded(t, root, d, "", c)
  {
    if c != [] {
      assert c[|c| - 1] in c;
    }
  }

  lemma LongIsNotAdded(t: Tree, root: nat, d: nat, name: string, p: seq<string>, q: seq<string>)
    requires Linked(t) && root < |t| && |q| > 1 && |q[0]| == COMPONENT
    ensures !IsAdded(t, root, d, name, p + q)
  {
    var c := p + q;
    assert (p + [q[0]])[..|p|] == p;
    if Walk(t, root, p).Some? {
      LongNameIsUnknown(t, Walk(t, root, p).value, q[0]);
    }
    WalkStaysLost(t, root, p + [q[0]], q[1..|q| - 1]);
    assert c[..|c| - 1] == p + [q[0]] + q[1..|q| - 1];
  }

  lemma {:induction false} EmptyNameIsUnused(s: string)
    ensures "" !in Components(s)
    decreases |s|
  {
    if s != [] {
      EmptyNameIsUnused(AfterChunk(s));
    }
  }

  /**
    * After `path` was created in the directory its dirname resolves to: it resolves to the new node exactly when
    * its name is new and has 1 to 31 characters and the dirname was not cut short into another directory.
    */
  lemma CreateThenResolve(t: Tree, root: Option<nat>, path: string, isDir: bool)
    requires Forest(t, root) && Resolve(t, root, Dirname(path)).Some? && Resolve(t, root, Dirname(path)).value < |t|
    ensures var d := Resolve(t, root, Dirname(path)).value;
            Resolve(Created(t, d, Basename(path), isDir), root, path) == Some(|t|) <==>
            && 0 < |Basename(path)| <= CHILD_NAME
            && Resolve(t, root, Parent(path)) == Some(d) && Step(t, d, Basename(path)).None?
  {
    var d := Resolve(t, root, Dirname(path)).value;
    assert path != "" && path[0] == '/';
    CreatedPathIsAdded(t, root.value, d, path);
    CreatedWalk(t, root.value, d, Basename(path), isDir, Components(path[1..]));
    WalkInTree(t, root.value, Components(path[1..]));
  }

  /** No other path changes: two paths that both lead to the new node have the same components. */
  lemma CreateChangesNothingElse(t: Tree, root: Option<nat>, d: nat, name: string, isDir: bool, a: string, b: string)
    requires Forest(t, root) && d < |t| && t[d].isDir
    ensures var u := Created(t, d, name, isDir);
            && (Resolve(u, root, a) == Resolve(t, root, a) || (Resolve(t, root, a).None? && Resolve(u, root, a) == Some(|t|)))
            && (Resolve(u, root, a) == Some(|t|) == Resolve(u, root, b) ==> Components(a[1..]) == Components(b[1..]))
  {
    var u := Created(t, d, name, isDir);
    if Resolve(u, root, a).Some? {
      var c := Components(a[1..]);
      CreatedWalk(t, root.value, d, name, isDir, c);
      CreatedIsForest(t, root, d, name, isDir);
      if Resolve(u, root, a) == Some(|t|) == Resolve(u, root, b) {
        PathIsUnique(u, root.value, c, Components(b[1..]));
      }
    } else if root.Some? && a != "" && a[0] == '/' {
      CreatedWalk(t, root.value, d, name, isDir, Components(a[1..]));
    }
  }

  /** The mounted root shows at its path exactly when the path led to an entry, not to a filesystem's root. */
  lemma MountThenResolve(t: Tree, root: nat, path: string, m: nat)
    requires Forest(t, Some(root)) && m < |t| && Resolve(t, Some(root), path) == Some(m)
    ensures Resolve(MountedOn(t, m), Some(root), path) == Some(|t|) <==> IsChild(t, m)
  {
    var c := Components(path[1..]);
    if IsChild(t, m) {
      ResolvedChildIsBare(t, root, c, m);
      MountedWalk(t, root, m, c);
      assert c[..|c|] == c && c != [];
      assert Hidden(t, root, m, c);
    } else {
      MountOnRootIsInvisible(t, root, m, c);
    }
  }
}
