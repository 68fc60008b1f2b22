/** The tree that ramfs nodes and mounts form, and the walk that resolves a path in it. */
module NamespaceTree {
  import opened Wrappers

  const MAX_NODES: nat := 64
  const MAX_CHILDREN: nat := 64
  const CHILD_NAME: nat := 31
  const COMPONENT: nat := 255

  datatype Entry = Entry(name: string, child: nat)

  /** `mount` is the root of the filesystem mounted on the node. */
  datatype Node = Node(name: string, isDir: bool, mount: Option<nat>, entries: seq<Entry>)

  type Tree = seq<Node>

  function Find(entries: seq<Entry>, name: string): Option<nat>
  {
    if entries == [] then None
    else if entries[0].name == name then Some(entries[0].child)
    else Find(entries[1..], name)
  }

  /** Replaces a node by the root mounted on it. */
  function Cross(t: Tree, n: nat): nat
  {
    if n < |t| && t[n].mount.Some? then t[n].mount.value else n
  }

  function Step(t: Tree, d: nat, name: string): Option<nat>
  {
    if d >= |t| then None else
      var c := Find(t[d].entries, name);
      if c.None? then None else Some(Cross(t, c.value))
  }

  function Walk(t: Tree, from: nat, path: seq<string>): Option<nat>
  {
    if path == [] then Some(from) else
      var d := Walk(t, from, path[..|path| - 1]);
      if d.None? then None else Step(t, d.value, path[|path| - 1])
  }

  predicate IsChild(t: Tree, n: nat)
  {
    exists d, i | 0 <= d < |t| && 0 <= i < |t[d].entries| :: t[d].entries[i].child == n
  }

  /** Children come later than their directory, so the links form no cycle; names fit their slot. */
  ghost predicate Linked(t: Tree)
  {
    && (forall d, i | 0 <= d < |t| && 0 <= i < |t[d].entries| ::
          d < t[d].entries[i].child < |t| && |t[d].entries[i].name| <= CHILD_NAME)
    && (forall d | 0 <= d < |t| && t[d].mount.Some? :: d <= t[d].mount.value < |t|)
    && forall d | 0 <= d < |t| && !t[d].isDir :: t[d].entries == []
  }

  /** No node is the child of two entries, and none is both a child and the root of a mount or mounted twice. */
  ghost predicate OneParent(t: Tree)
  {
    && (forall d, i, e, j | 0 <= d < |t| && 0 <= i < |t[d].entries| && 0 <= e < |t| && 0 <= j < |t[e].entries| ::
          t[d].entries[i].child == t[e].entries[j].child ==> d == e && i == j)
    && (forall d, i, m | 0 <= d < |t| && 0 <= i < |t[d].entries| && 0 <= m < |t| ::
          t[m].mount != Some(t[d].entries[i].child))
    && forall m, n | 0 <= m < |t| && 0 <= n < |t| && t[m].mount.Some? :: t[m].mount == t[n].mount ==> m == n
  }

  /** The global root is nobody's child and is mounted on nothing but itself. */
  ghost predicate IsRoot(t: Tree, root: nat)
  {
    && root < |t|
    && (forall d, i | 0 <= d < |t| && 0 <= i < |t[d].entries| :: t[d].entries[i].child != root)
    && forall m | 0 <= m < |t| && t[m].mount == Some(root) :: m == root
  }

  ghost predicate Forest(t: Tree, root: Option<nat>)
  {
    Linked(t) && OneParent(t) && (root.Some? ==> IsRoot(t, root.value))
  }

  lemma {:induction false} FindAt(entries: seq<Entry>, name: string) returns (i: nat)
    requires Find(entries, name).Some?
    ensures i < |entries| && entries[i].name == name && Find(entries, name) == Some(entries[i].child)
  {
    if entries[0].name == name {
      i := 0;
    } else {
      var k := FindAt(entries[1..], name);
      i := k + 1;
    }
  }

  lemma StepAt(t: Tree, d: nat, name: string) returns (i: nat)
    requires Step(t, d, name).Some?
    ensures d < |t| && i < |t[d].entries| && t[d].entries[i].name == name
    ensures Step(t, d, name) == Some(Cross(t, t[d].entries[i].child))
  {
    i := FindAt(t[d].entries, name);
  }

  lemma {:induction false} WalkInTree(t: Tree, root: nat, path: seq<string>)
    requires Linked(t) && root < |t|
    ensures Walk(t, root, path).Some? ==> Walk(t, root, path).value < |t|
  {
    if path != [] {
      WalkInTree(t, root, path[..|path| - 1]);
      var d := Walk(t, root, path[..|path| - 1]);
      if d.Some? && Step(t, d.value, path[|path| - 1]).Some? {
        var i := StepAt(t, d.value, path[|path| - 1]);
      }
    }
  }

  /** A step that arrives somewhere determines where it came from and by which name. */
  lemma StepBack(t: Tree, root: nat, d: nat, a: string, e: nat, b: string)
    requires Forest(t, Some(root)) && Step(t, d, a).Some?
    ensures Step(t, d, a) != Some(root)
    ensures Step(t, d, a) == Step(t, e, b) ==> d == e && a == b
  {
    var i := StepAt(t, d, a);
    var c := t[d].entries[i].child;
    if Step(t, d, a) == Step(t, e, b) {
      var j := StepAt(t, e, b);
      assert c == t[e].entries[j].child;
    }
  }

  lemma NeverBackAtRoot(t: Tree, root: nat, a: seq<string>)
    requires Forest(t, Some(root)) && a != [] && Walk(t, root, a).Some?
    ensures Walk(t, root, a) != Some(root)
  {
    var d, n := Walk(t, root, a[..|a| - 1]).value, a[|a| - 1];
    StepBack(t, root, d, n, d, n);
  }

  lemma SameLastStep(t: Tree, root: nat, a: seq<string>, b: seq<string>)
    requires Forest(t, Some(root)) && a != [] && b != [] && Walk(t, root, a).Some? && Walk(t, root, a) == Walk(t, root, b)
    ensures Walk(t, root, a[..|a| - 1]).Some? && Walk(t, root, a[..|a| - 1]) == Walk(t, root, b[..|b| - 1])
    ensures a[|a| - 1] == b[|b| - 1]
  {
    var d, e := Walk(t, root, a[..|a| - 1]).value, Walk(t, root, b[..|b| - 1]).value;
    StepBack(t, root, d, a[|a| - 1], e, b[|b| - 1]);
  }

  lemma SameParts(a: seq<string>, b: seq<string>)
    requires a != [] && b != [] && a[..|a| - 1] == b[..|b| - 1] && a[|a| - 1] == b[|b| - 1]
    ensures a == b
  {
    assert a == a[..|a| - 1] + [a[|a| - 1]] && b == b[..|b| - 1] + [b[|b| - 1]];
  }

  /** Every directory and file has one path. */
  lemma {:induction false} PathIsUnique(t: Tree, root: nat, a: seq<string>, b: seq<string>)
    requires Forest(t, Some(root))
    requires Walk(t, root, a).Some? && Walk(t, root, a) == Walk(t, root, b)
    ensures a == b
  {
    if a != [] {
      NeverBackAtRoot(t, root, a);
      SameLastStep(t, root, a, b);
      PathIsUnique(t, root, a[..|a| - 1], b[..|b| - 1]);
      SameParts(a, b);
    } else if b != [] {
      NeverBackAtRoot(t, root, b);
    }
  }

  /** What is stored of a name in the directory and in the node. */
  function Stored(name: string): string
  {
    if |name| <= CHILD_NAME then name else name[..CHILD_NAME]
  }

  function NodeName(name: string): string
  {
    if |name| <= COMPONENT then name else name[..COMPONENT]
  }

  /** A new node in the next place of the pool. */
  function Allocated(t: Tree, name: string, isDir: bool): Tree
  {
    t + [Node(NodeName(name), isDir, None, [])]
  }

  /** A new node listed last in directory `d`. */
  function Created(t: Tree, d: nat, name: string, isDir: bool): Tree
    requires d < |t|
  {
    Allocated(t, name, isDir)[d := t[d].(entries := t[d].entries + [Entry(Stored(name), |t|)])]
  }

  lemma AllocatedIsForest(t: Tree, root: Option<nat>, name: string, isDir: bool)
    requires Forest(t, root)
    ensures Forest(Allocated(t, name, isDir), root)
  {
  }

  /** An entry of the grown tree is an old one in its old place, or the new one. */
  ghost predicate IsEntryOf(t: Tree, u: Tree, d: nat, e: nat, i: nat)
    requires e < |u| && i < |u[e].entries|
  {
    if e < |t| && i < |t[e].entries| then u[e].entries[i] == t[e].entries[i]
    else e == d < |t| && i == |t[d].entries| && u[e].entries[i].child == |t| && |u[e].entries[i].name| <= CHILD_NAME
  }

  /** The same nodes with one more at the end; one directory has one more entry. */
  ghost predicate Extends(t: Tree, u: Tree, d: nat)
  {
    && |u| == |t| + 1 && d < |t| && t[d].isDir && u[|t|].mount.None?
    && (forall e | 0 <= e < |t| :: u[e].isDir == t[e].isDir && u[e].mount == t[e].mount)
    && (forall e, i | 0 <= e < |u| && 0 <= i < |u[e].entries| :: IsEntryOf(t, u, d, e, i))
    && forall e | 0 <= e < |u| && e != d && !u[e].isDir :: u[e].entries == []
  }

  lemma ExtendedIsLinked(t: Tree, u: Tree, d: nat)
    requires Linked(t) && Extends(t, u, d)
    ensures Linked(u)
  {
    forall e, i | 0 <= e < |u| && 0 <= i < |u[e].entries|
      ensures e < u[e].entries[i].child < |u| && |u[e].entries[i].name| <= CHILD_NAME
    {
      assert IsEntryOf(t, u, d, e, i);
    }
  }

  lemma ExtendedHasOneParent(t: Tree, u: Tree, d: nat)
    requires Linked(t) && OneParent(t) && Extends(t, u, d)
    ensures OneParent(u)
  {
    forall e, i, f, j | 0 <= e < |u| && 0 <= i < |u[e].entries| && 0 <= f < |u| && 0 <= j < |u[f].entries|
        && u[e].entries[i].child == u[f].entries[j].child
      ensures e == f && i == j
    {
      assert IsEntryOf(t, u, d, e, i) && IsEntryOf(t, u, d, f, j);
    }
    forall e, i, m | 0 <= e < |u| && 0 <= i < |u[e].entries| && 0 <= m < |u|
      ensures u[m].mount != Some(u[e].entries[i].child)
    {
      assert IsEntryOf(t, u, d, e, i);
    }
  }

  lemma ExtendedHasRoot(t: Tree, u: Tree, d: nat, root: nat)
    requires Linked(t) && IsRoot(t, root) && Extends(t, u, d)
    ensures IsRoot(u, root)
  {
    forall e, i | 0 <= e < |u| && 0 <= i < |u[e].entries|
      ensures u[e].entries[i].child != root
    {
      assert IsEntryOf(t, u, d, e, i);
    }
  }

  lemma CreatedExtends(t: Tree, d: nat, name: string, isDir: bool)
    requires Linked(t) && d < |t| && t[d].isDir
    ensures Extends(t, Created(t, d, name, isDir), d)
  {
    var u := Created(t, d, name, isDir);
    forall e, i | 0 <= e < |u| && 0 <= i < |u[e].entries|
      ensures IsEntryOf(t, u, d, e, i)
    {
    }
  }

  lemma CreatedIsForest(t: Tree, root: Option<nat>, d: nat, name: string, isDir: bool)
    requires Forest(t, root) && d < |t| && t[d].isDir
    ensures Forest(Created(t, d, name, isDir), root)
  {
    var u := Created(t, d, name, isDir);
    CreatedExtends(t, d, name, isDir);
    ExtendedIsLinked(t, u, d);
    ExtendedHasOneParent(t, u, d);
    if root.Some? {
      ExtendedHasRoot(t, u, d, root.value);
    }
  }

  lemma {:induction false} FindSnoc(entries: seq<Entry>, e: Entry, name: string)
    ensures Find(entries + [e], name) == if Find(entries, name).Some? then Find(entries, name)
                                         else if e.name == name then Some(e.child) else None
  {
    if entries == [] {
      assert entries + [e] == [e] && [e][1..] == [];
    } else {
      assert (entries + [e])[1..] == entries[1..] + [e];
      FindSnoc(entries[1..], e, name);
    }
  }

  lemma CreatedStep(t: Tree, d: nat, name: string, isDir: bool, e: nat, n: string)
    requires Linked(t) && d < |t|
    ensures Step(Created(t, d, name, isDir), e, n) ==
            if e == d && n == Stored(name) && Step(t, d, n).None? then Some(|t|) else Step(t, e, n)
  {
    var u := Created(t, d, name, isDir);
    if e == d {
      FindSnoc(t[d].entries, Entry(Stored(name), |t|), n);
    }
    if e < |t| && Find(t[e].entries, n).Some? {
      var i := FindAt(t[e].entries, n);
      var c := t[e].entries[i].child;
      assert c < |t| && Cross(u, c) == Cross(t, c);
    }
  }

  /** The one path that a new entry adds, unless its stored name was taken. */
  ghost predicate IsAdded(t: Tree, root: nat, d: nat, name: string, path: seq<string>)
  {
    && path != [] && path[|path| - 1] == Stored(name)
    && Walk(t, root, path[..|path| - 1]) == Some(d) && Step(t, d, Stored(name)).None?
  }

  /** A new entry makes exactly that path resolve, to the new node, and changes no other. */
  lemma {:induction false} CreatedWalk(t: Tree, root: nat, d: nat, name: string, isDir: bool, path: seq<string>)
    requires Linked(t) && d < |t| && root < |t|
    ensures Walk(Created(t, d, name, isDir), root, path) ==
            if IsAdded(t, root, d, name, path) then Some(|t|) else Walk(t, root, path)
  {
    if path != [] {
      var u, p, n := Created(t, d, name, isDir), path[..|path| - 1], path[|path| - 1];
      CreatedWalk(t, root, d, name, isDir, p);
      if IsAdded(t, root, d, name, p) {
        CreatedStep(t, d, name, isDir, |t|, n);
        assert Walk(t, root, p) == Step(t, d, Stored(name)) == None;
      } else if Walk(t, root, p).Some? {
        CreatedStep(t, d, name, isDir, Walk(t, root, p).value, n);
      }
    }
  }

  /** A new filesystem root mounted on node `m`. */
  function MountedOn(t: Tree, m: nat): Tree
    requires m < |t|
  {
    Allocated(t, "/", true)[m := t[m].(mount := Some(|t|))]
  }

  lemma MountedIsForest(t: Tree, root: nat, m: nat)
    requires Forest(t, Some(root)) && m < |t|
    ensures Forest(MountedOn(t, m), Some(root))
  {
    var v := Allocated(t, "/", true);
    AllocatedIsForest(t, Some(root), "/", true);
    MountSetIsLinked(v, m, |t|);
    MountSetHasOneParent(v, m, |t|);
  }

  /** A node that nothing leads to yet. */
  ghost predicate IsLoose(t: Tree, k: nat)
  {
    && k < |t| && (forall d, i | 0 <= d < |t| && 0 <= i < |t[d].entries| :: t[d].entries[i].child != k)
    && forall e | 0 <= e < |t| :: t[e].mount != Some(k)
  }

  lemma MountSetIsLinked(t: Tree, m: nat, k: nat)
    requires Linked(t) && m < k < |t|
    ensures Linked(t[m := t[m].(mount := Some(k))])
  {
  }

  lemma MountSetHasOneParent(t: Tree, m: nat, k: nat)
    requires OneParent(t) && m < |t| && IsLoose(t, k)
    ensures OneParent(t[m := t[m].(mount := Some(k))])
  {
    var u := t[m := t[m].(mount := Some(k))];
    assert forall e | 0 <= e < |t| :: u[e].entries == t[e].entries;
  }

  /** Is the walk at or below the node that a mount on `m` hides? */
  ghost predicate Hidden(t: Tree, root: nat, m: nat, path: seq<string>)
  {
    exists k | 0 < k <= |path| :: Walk(t, root, path[..k]) == Some(m)
  }

  lemma MountedStep(t: Tree, root: nat, m: nat, e: nat, n: string)
    requires Forest(t, Some(root)) && m < |t| && t[m].mount.None? && e < |t|
    ensures IsChild(t, m) && Step(t, e, n) == Some(m) ==> Step(MountedOn(t, m), e, n) == Some(|t|)
    ensures !IsChild(t, m) || Step(t, e, n) != Some(m) ==> Step(MountedOn(t, m), e, n) == Step(t, e, n)
  {
    var u := MountedOn(t, m);
    if Find(t[e].entries, n).Some? {
      var i := FindAt(t[e].entries, n);
      var c := t[e].entries[i].child;
      assert u[e].entries == t[e].entries;
      assert IsChild(t, c);
    }
  }

  /** A mount on a node that is somebody's child hides what was there: the mounted root resolves instead. */
  lemma {:induction false} MountedWalk(t: Tree, root: nat, m: nat, path: seq<string>)
    requires Forest(t, Some(root)) && m < |t| && t[m].mount.None? && IsChild(t, m)
    ensures Walk(MountedOn(t, m), root, path) ==
            if !Hidden(t, root, m, path) then Walk(t, root, path)
            else if Walk(t, root, path) == Some(m) then Some(|t|) else None
  {
    var u := MountedOn(t, m);
    if path != [] {
      var p, n := path[..|path| - 1], path[|path| - 1];
      MountedWalk(t, root, m, p);
      WalkInTree(t, root, p);
      var d := Walk(t, root, p);
      if d.Some? {
        MountedStep(t, root, m, d.value, n);
      }
      if Walk(t, root, path) == Some(m) {
        assert path[..|path|] == path;
        if Hidden(t, root, m, p) {
          var k :| 0 < k <= |p| && Walk(t, root, p[..k]) == Some(m);
          PathIsUnique(t, root, p[..k], path);
          assert false;
        }
        assert Hidden(t, root, m, path);
      } else {
        HiddenSnoc(t, root, m, path);
        if Hidden(t, root, m, p) {
          assert u[|t|].entries == [];
        }
      }
    }
  }

  lemma HiddenSnoc(t: Tree, root: nat, m: nat, path: seq<string>)
    requires path != [] && Walk(t, root, path) != Some(m)
    ensures Hidden(t, root, m, path) <==> Hidden(t, root, m, path[..|path| - 1])
  {
    var p := path[..|path| - 1];
    assert path[..|path|] == path;
    if Hidden(t, root, m, path) {
      var k :| 0 < k <= |path| && Walk(t, root, path[..k]) == Some(m);
      assert p[..k] == path[..k];
    }
    if Hidden(t, root, m, p) {
      var k :| 0 < k <= |p| && Walk(t, root, p[..k]) == Some(m);
      assert p[..k] == path[..k];
    }
  }

  /** A mount on a node that is nobody's child, the global root or the root of another mount, is never seen. */
  lemma {:induction false} MountOnRootIsInvisible(t: Tree, root: nat, m: nat, path: seq<string>)
    requires Forest(t, Some(root)) && m < |t| && !IsChild(t, m)
    ensures Walk(MountedOn(t, m), root, path) == Walk(t, root, path)
  {
    var u := MountedOn(t, m);
    if path != [] {
      var p, n := path[..|path| - 1], path[|path| - 1];
      MountOnRootIsInvisible(t, root, m, p);
      WalkInTree(t, root, p);
      var d := Walk(t, root, p);
      if d.Some? && Find(t[d.value].entries, n).Some? {
        var i := FindAt(t[d.value].entries, n);
        assert IsChild(t, t[d.value].entries[i].child);
      }
    }
  }

  /** A walk that ends at a child ends at one with nothing mounted on it. */
  lemma ResolvedChildIsBare(t: Tree, root: nat, path: seq<string>, m: nat)
    requires Forest(t, Some(root)) && Walk(t, root, path) == Some(m) && IsChild(t, m)
    ensures m < |t| && t[m].mount.None?
  {
    assert path != [];
    var d := Walk(t, root, path[..|path| - 1]).value;
    var i := StepAt(t, d, path[|path| - 1]);
  }

  /** A filesystem mounted as the global root is mounted on its own root. */
  function RootMounted(t: Tree): Tree
  {
    t + [Node("/", true, Some(|t|), [])]
  }

  lemma RootMountedIsForest(t: Tree, root: Option<nat>)
    requires Forest(t, root)
    ensures Forest(RootMounted(t), Some(|t|))
  {
  }

  lemma {:induction false} AllocatedWalk(t: Tree, root: nat, path: seq<string>, name: string, isDir: bool)
    requires Linked(t) && root < |t|
    ensures Walk(Allocated(t, name, isDir), root, path) == Walk(t, root, path)
  {
    if path != [] {
      var p, n := path[..|path| - 1], path[|path| - 1];
      AllocatedWalk(t, root, p, name, isDir);
      WalkInTree(t, root, p);
      var d := Walk(t, root, p);
      if d.Some? && Find(t[d.value].entries, n).Some? {
        var i := FindAt(t[d.value].entries, n);
      }
    }
  }
}
