/** ramfs.c and vfs.c: the node pool with its child slots, path resolution, creation and mounting. */
module Namespace {
  import opened Wrappers
  import opened NamespaceTree
  import opened VfsPaths

  const NULL: int := -1
  const MAX_MOUNTS: nat := 16

  function Index(o: Option<nat>): int
  {
    if o.Some? then o.value else NULL
  }

  /** Copies at most `limit` characters. */
  method CopyName(name: string, limit: nat) returns (copy: string)
    ensures copy == if |name| <= limit then name else name[..limit]
  {
    copy := "";
    var i := 0;
    while i < |name| && i < limit
      invariant i <= |name| && i <= limit && copy == name[..i]
    {
      copy := copy + [name[i]];
      i := i + 1;
    }
  }

  method SameName(a: string, b: string) returns (same: bool)
    ensures same <==> a == b
  {
    var i := 0;
    while i < |a| && i < |b|
      invariant i <= |a| && i <= |b| && a[..i] == b[..i]
    {
      if a[i] != b[i] {
        return false;
      }
      i := i + 1;
    }
    same := i == |a| && i == |b|;
  }

  method VfsBasename(path: string) returns (base: string)
    ensures base == Basename(path)
  {
    var start, p := 0, 0;
    while p < |path|
      invariant p <= |path| && start == LastSlash(path[..p]) + 1
    {
      assert path[..p + 1][..p] == path[..p];
      if path[p] == '/' {
        start := p + 1;
      }
      p := p + 1;
    }
    assert path[..p] == path;
    base := path[start..];
  }

  method VfsDirname(path: string) returns (out: string)
    ensures out == Dirname(path)
  {
    var last, p := -1, 0;
    while p < |path|
      invariant p <= |path| && last == LastSlash(path[..p])
    {
      assert path[..p + 1][..p] == path[..p];
      if path[p] == '/' {
        last := p;
      }
      p := p + 1;
    }
    assert path[..p] == path;
    if last < 0 {
      return ".";
    }
    var len: nat := if last == 0 then 1 else last;
    if len >= DIRNAME {
      len := DIRNAME - 1;
    }
    out := path[..len];
  }

  class Vfs {
    const nodeName: array<string>
    const isDir: array<bool>
    const mount: array<int>
    const children: array2<int>
    const childNames: array2<string>
    var count: nat
    var root: int
    var mounts: nat
    ghost var tree: Tree

    ghost predicate Shape()
      reads this`count, this`tree
    {
      && nodeName.Length == isDir.Length == mount.Length == MAX_NODES
      && children.Length0 == childNames.Length0 == MAX_NODES && children.Length1 == childNames.Length1 == MAX_CHILDREN
      && (children as object) != childNames && (nodeName as object) != isDir
      && (isDir as object) != mount && (mount as object) != nodeName
      && |tree| == count <= MAX_NODES
    }

    /** The pool record of a node that is in use. */
    ghost predicate NodeStored(n: nat)
      requires Shape() && n < count
      reads this`count, this`tree, nodeName, isDir, mount
    {
      nodeName[n] == tree[n].name && isDir[n] == tree[n].isDir && mount[n] == Index(tree[n].mount)
    }

    /** Children fill a prefix of the slots. */
    ghost predicate SlotStored(n: nat, i: nat)
      requires Shape() && n < count && i < MAX_CHILDREN
      reads this`count, this`tree, children, childNames
    {
      if i < |tree[n].entries|
      then children[n, i] == tree[n].entries[i].child && childNames[n, i] == tree[n].entries[i].name
      else children[n, i] == NULL
    }

    ghost predicate Stored()
      requires Shape()
      reads this`count, this`tree, nodeName, isDir, mount, children, childNames
    {
      && (forall n | 0 <= n < count :: NodeStored(n) && |tree[n].entries| <= MAX_CHILDREN)
      && forall n, i | 0 <= n < count && 0 <= i < MAX_CHILDREN :: SlotStored(n, i)
    }

    ghost function Root(): Option<nat>
      reads this`root
    {
      if root < 0 then None else Some(root)
    }

    /** The pool holds this tree. */
    ghost predicate Holds(t: Tree)
      reads this`count, this`tree, nodeName, isDir, mount, children, childNames
    {
      Shape() && Stored() && tree == t
    }

    ghost predicate Valid()
      reads this, nodeName, isDir, mount, children, childNames
    {
      Holds(tree) && Forest(tree, Root()) && NULL <= root < count && mounts <= MAX_MOUNTS
    }

    constructor ()
      ensures Valid() && tree == [] && root == NULL && mounts == 0
      ensures fresh(nodeName) && fresh(isDir) && fresh(mount) && fresh(children) && fresh(childNames)
    {
      nodeName, isDir, mount := new string[MAX_NODES], new bool[MAX_NODES], new int[MAX_NODES];
      children, childNames := new int[MAX_NODES, MAX_CHILDREN], new string[MAX_NODES, MAX_CHILDREN];
      count, root, mounts, tree := 0, NULL, 0, [];
    }

    method RamfsFindDir(n: nat, name: string) returns (c: int)
      requires Holds(tree) && n < count
      ensures c == if tree[n].isDir then Index(Find(tree[n].entries, name)) else NULL
    {
      assert NodeStored(n);
      if !isDir[n] {
        return NULL;
      }
      ghost var es := tree[n].entries;
      for i := 0 to MAX_CHILDREN
        invariant i <= |es| ==> Find(es, name) == Find(es[i..], name)
        invariant i > |es| ==> Find(es, name).None?
      {
        assert SlotStored(n, i);
        if children[n, i] != NULL {
          assert i < |es|;
          var same := SameName(name, childNames[n, i]);
          if same {
            return children[n, i];
          }
          assert es[i..][1..] == es[i + 1..];
        }
      }
      c := NULL;
    }

    method RamfsReadDir(n: nat, index: nat) returns (c: int)
      requires Holds(tree) && n < count
      ensures c == if tree[n].isDir && index < |tree[n].entries| then tree[n].entries[index].child else NULL
    {
      assert NodeStored(n);
      if !isDir[n] {
        return NULL;
      }
      var seen := 0;
      for i := 0 to MAX_CHILDREN
        invariant seen == (if i <= |tree[n].entries| then i else |tree[n].entries|) && seen <= index
      {
        assert SlotStored(n, i);
        if children[n, i] != NULL {
          if seen == index {
            return children[n, i];
          }
          seen := seen + 1;
        }
      }
      c := NULL;
    }

    method ClearSlots(n: nat)
      requires Shape() && n < MAX_NODES
      modifies children, childNames
      ensures forall m, i | 0 <= m < MAX_NODES && 0 <= i < MAX_CHILDREN :: m != n ==>
                children[m, i] == old(children[m, i]) && childNames[m, i] == old(childNames[m, i])
      ensures forall i | 0 <= i < MAX_CHILDREN :: children[n, i] == NULL
    {
      for i := 0 to MAX_CHILDREN
        invariant forall m, j | 0 <= m < MAX_NODES && 0 <= j < MAX_CHILDREN :: m != n ==>
                    children[m, j] == old(children[m, j]) && childNames[m, j] == old(childNames[m, j])
        invariant forall j | 0 <= j < i :: children[n, j] == NULL
      {
        children[n, i] := NULL;
        childNames[n, i] := "";
      }
    }

    method RamfsAllocNode(name: string, dir: bool) returns (index: int)
      requires Holds(tree)
      modifies this`count, this`tree, nodeName, isDir, mount, children, childNames
      ensures Holds(if old(count) < MAX_NODES then Allocated(old(tree), name, dir) else old(tree))
      ensures index == if old(count) < MAX_NODES then old(count) else NULL
    {
      if count == MAX_NODES {
        return NULL;
      }
      index := count;
      ClearSlots(index);
      nodeName[index] := CopyName(name, COMPONENT);
      isDir[index] := dir;
      mount[index] := NULL;
      count, tree := count + 1, Allocated(tree, name, dir);
      forall n, i | 0 <= n < count && 0 <= i < MAX_CHILDREN
        ensures SlotStored(n, i)
      {
        assert n < index ==> old(SlotStored(n, i));
      }
    }

    /** No check that the name is new. */
    method RamfsCreate(parent: nat, name: string, dir: bool) returns (ok: bool)
      requires Holds(tree) && parent < count
      modifies this`count, this`tree, nodeName, isDir, mount, children, childNames
      ensures ok <==> old(CanCreate(parent))
      ensures Holds(if ok then Created(old(tree), parent, name, dir) else old(tree))
    {
      assert NodeStored(parent);
      if !isDir[parent] {
        return false;
      }
      var slot := 0;
      while slot < MAX_CHILDREN && children[parent, slot] != NULL
        invariant slot <= |tree[parent].entries|
      {
        assert SlotStored(parent, slot);
        slot := slot + 1;
      }
      assert slot < MAX_CHILDREN ==> SlotStored(parent, slot);
      if slot == MAX_CHILDREN {
        return false;
      }
      ghost var was := tree;
      var node := RamfsAllocNode(name, dir);
      if node == NULL {
        return false;
      }
      AddChild(was, parent, slot, node, name, dir);
      ok := true;
    }

    ghost predicate CanCreate(parent: nat)
      requires Shape() && parent < count
      reads this
    {
      tree[parent].isDir && |tree[parent].entries| < MAX_CHILDREN && count < MAX_NODES
    }

    method AddChild(ghost was: Tree, parent: nat, slot: nat, node: int, name: string, dir: bool)
      requires Holds(Allocated(was, name, dir)) && parent < |was| && node == |was|
      requires slot == |was[parent].entries| < MAX_CHILDREN
      modifies this`tree, children, childNames
      ensures Holds(Created(was, parent, name, dir))
    {
      var copy := CopyName(name, CHILD_NAME);
      children[parent, slot] := node;
      childNames[parent, slot] := copy;
      tree := Created(was, parent, name, dir);
      forall n | 0 <= n < count
        ensures NodeStored(n) && |tree[n].entries| <= MAX_CHILDREN
      {
        assert old(NodeStored(n) && |tree[n].entries| <= MAX_CHILDREN);
      }
      forall n, i | 0 <= n < count && 0 <= i < MAX_CHILDREN
        ensures SlotStored(n, i)
      {
        assert old(SlotStored(n, i));
        if n == parent && i == slot {
          assert children[n, i] == node && childNames[n, i] == copy;
          assert tree[n].entries[i] == Entry(copy, |was|);
        } else {
          assert children[n, i] == old(children[n, i]) && childNames[n, i] == old(childNames[n, i]);
        }
      }
    }

    /** The walk stands at node `n`, having used the components `done`; the rest starts at place `p`. */
    ghost predicate StandsAt(path: string, p: nat, done: seq<string>, n: int)
      requires Shape()
      reads this`count, this`tree, this`root
    {
      && 1 <= p <= |path| && 0 <= root && 0 <= n < count
      && Components(path[1..]) == done + Components(path[p..])
      && Walk(tree, root, done) == Some(n)
    }

    method VfsResolvePath(path: string) returns (n: int)
      requires Holds(tree) && Linked(tree) && NULL <= root < count
      ensures n == Index(Resolve(tree, Root(), path)) && n < count
    {
      if root == NULL || path == "" || path[0] != '/' {
        return NULL;
      }
      n := root;
      var p := 1;
      ghost var done := [];
      while p < |path|
        invariant StandsAt(path, p, done, n)
        decreases |path| - p
      {
        n, p, done := TakeComponent(path, p, n, done);
        if n == NULL {
          return;
        }
      }
      assert done + [] == done;
    }

    method TakeComponent(path: string, start: nat, from: int, ghost done: seq<string>)
        returns (n: int, p: nat, ghost done': seq<string>)
      requires Holds(tree) && Linked(tree) && StandsAt(path, start, done, from) && start < |path|
      ensures start < p <= |path| && n < count
      ensures n != NULL ==> StandsAt(path, p, done', n)
      ensures n == NULL ==> Walk(tree, root, Components(path[1..])) == None
    {
      var component;
      component, p := NextComponent(path, start);
      NextOf(done, path[start..], component);
      n, done' := from, done;
      if component != "" {
        n := Descend(from, component);
        Further(done, component, Components(path[p..]));
        done' := done + [component];
      }
    }

    method NextComponent(path: string, start: nat) returns (component: string, p: nat)
      requires start < |path|
      ensures start < p <= |path| && path[p..] == AfterChunk(path[start..])
      ensures FirstOf(path[start..]) == if component == "" then [] else [component]
    {
      p := start;
      component := "";
      ghost var s := path[start..];
      while p < |path| && path[p] != '/' && |component| < COMPONENT
        invariant start <= p <= |path| && p - start == |component| <= COMPONENT && component == s[..|component|]
        invariant forall i | 0 <= i < |component| :: s[i] != '/'
      {
        component := component + [path[p]];
        p := p + 1;
      }
      ChunkLengthIs(s, COMPONENT, |component|);
      if p < |path| && path[p] == '/' {
        p := p + 1;
      }
    }

    /** One step: look the component up, and cross to what is mounted there. */
    method Descend(n: nat, component: string) returns (next: int)
      requires Holds(tree) && Linked(tree) && n < count
      ensures next == Index(Step(tree, n, component)) && next < count
    {
      next := RamfsFindDir(n, component);
      if Find(tree[n].entries, component).Some? {
        ghost var i := FindAt(tree[n].entries, component);
      }
      if next != NULL {
        assert NodeStored(next);
        if mount[next] != NULL {
          next := mount[next];
        }
      }
    }

    lemma NextOf(done: seq<string>, s: string, component: string)
      requires s != [] && FirstOf(s) == if component == "" then [] else [component]
      ensures done + Components(s) ==
              (if component == "" then done else done + [component]) + Components(AfterChunk(s))
    {
      assert Components(s) == FirstOf(s) + Components(AfterChunk(s));
      Regroup(done, FirstOf(s), Components(AfterChunk(s)));
      assert done + [] == done;
    }

    lemma Further(done: seq<string>, name: string, rest: seq<string>)
      requires root >= 0 && Walk(tree, root, done).Some?
      ensures Walk(tree, root, done + [name]) == Step(tree, Walk(tree, root, done).value, name)
      ensures Walk(tree, root, done + [name]).None? ==> Walk(tree, root, done + [name] + rest).None?
    {
      assert (done + [name])[..|done|] == done;
      if Walk(tree, root, done + [name]).None? {
        WalkStaysLost(tree, root, done + [name], rest);
      }
    }

    /** The directory that `path` would be created in. */
    ghost function Target(path: string): Option<nat>
      reads this
    {
      Resolve(tree, Root(), Dirname(path))
    }

    ghost predicate Creates(path: string)
      requires Shape()
      reads this
    {
      Target(path).Some? && Target(path).value < count && CanCreate(Target(path).value)
    }

    method CreateNode(path: string, dir: bool) returns (ok: bool)
      requires Valid()
      modifies this`count, this`tree, nodeName, isDir, mount, children, childNames
      ensures Valid()
      ensures ok <==> old(Creates(path))
      ensures tree == if ok then Created(old(tree), old(Target(path)).value, Basename(path), dir) else old(tree)
      ensures ok ==> count == old(count) + 1 && tree[old(count)].entries == [] && tree[old(count)].isDir == dir
      ensures ok ==> (Resolve(tree, Root(), path) == Some(old(count)) <==>
                      && 0 < |Basename(path)| <= CHILD_NAME
                      && old(Resolve(tree, Root(), Parent(path))) == old(Target(path))
                      && old(Step(tree, Target(path).value, Basename(path))).None?)
    {
      var dirname := VfsDirname(path);
      var parent := VfsResolvePath(dirname);
      if parent == NULL {
        return false;
      }
      var filename := VfsBasename(path);
      ghost var was, r := tree, Root();
      ok := RamfsCreate(parent, filename, dir);
      if ok {
        CreatedIsForest(was, r, parent, filename, dir);
        CreateThenResolve(was, r, path, dir);
      }
    }

    method VfsMkdir(path: string) returns (ok: bool)
      requires Valid()
      modifies this`count, this`tree, nodeName, isDir, mount, children, childNames
      ensures Valid()
      ensures ok <==> old(Creates(path))
      ensures tree == if ok then Created(old(tree), old(Target(path)).value, Basename(path), true) else old(tree)
      ensures ok ==> (Resolve(tree, Root(), path) == Some(old(count)) <==>
                      && 0 < |Basename(path)| <= CHILD_NAME
                      && old(Resolve(tree, Root(), Parent(path))) == old(Target(path))
                      && old(Step(tree, Target(path).value, Basename(path))).None?)
    {
      ok := CreateNode(path, true);
    }

    method VfsCreate(path: string) returns (ok: bool)
      requires Valid()
      modifies this`count, this`tree, nodeName, isDir, mount, children, childNames
      ensures Valid()
      ensures ok <==> old(Creates(path))
      ensures tree == if ok then Created(old(tree), old(Target(path)).value, Basename(path), false) else old(tree)
      ensures ok ==> (Resolve(tree, Root(), path) == Some(old(count)) <==>
                      && 0 < |Basename(path)| <= CHILD_NAME
                      && old(Resolve(tree, Root(), Parent(path))) == old(Target(path))
                      && old(Step(tree, Target(path).value, Basename(path))).None?)
    {
      ok := CreateNode(path, false);
    }

    /** Is there room in the mount table and in the pool? */
    ghost predicate MountRoom(known: bool)
      reads this
    {
      mounts < MAX_MOUNTS && known && count < MAX_NODES
    }

    ghost predicate Mountable(path: string)
      requires Shape()
      reads this
    {
      path == "/" || var m := Resolve(tree, Root(), path); m.Some? && m.value < count && tree[m.value].isDir
    }

    /** A ramfs root is taken from the pool and mounted. */
    method MountRamfs(path: string) returns (ok: bool)
      requires Valid()
      modifies this`count, this`tree, this`root, nodeName, isDir, mount, children, childNames
      ensures Valid()
      ensures ok <==> old(count < MAX_NODES && Mountable(path))
      ensures old(count) == MAX_NODES ==> tree == old(tree)
      ensures old(count) < MAX_NODES && !ok ==> tree == Allocated(old(tree), "/", true)
      ensures ok && path == "/" ==> tree == RootMounted(old(tree)) && root == old(count)
      ensures ok && path != "/" ==> tree == MountedOn(old(tree), old(Resolve(tree, Root(), path)).value)
      ensures !ok || path != "/" ==> root == old(root)
    {
      ghost var was := tree;
      var node := RamfsAllocNode("/", true);
      if node == NULL {
        return false;
      }
      if path == "/" {
        MountAsRoot(was, node);
        ok := true;
      } else {
        ok := MountBelow(was, node, path);
      }
    }

    /** Mounts a ramfs; a mount that fails late leaves its root node behind in the pool. */
    method VfsMount(path: string, known: bool) returns (ok: bool)
      requires Valid()
      modifies this`count, this`tree, this`root, this`mounts, nodeName, isDir, mount, children, childNames
      ensures Valid()
      ensures ok <==> old(MountRoom(known) && Mountable(path))
      ensures !old(MountRoom(known)) ==> tree == old(tree)
      ensures old(MountRoom(known)) && !ok ==> tree == Allocated(old(tree), "/", true)
      ensures ok && path == "/" ==> tree == RootMounted(old(tree)) && root == old(count)
      ensures ok && path != "/" ==> tree == MountedOn(old(tree), old(Resolve(tree, Root(), path)).value)
      ensures !ok || path != "/" ==> root == old(root)
      ensures mounts == old(mounts) + if ok then 1 else 0
    {
      if mounts == MAX_MOUNTS || !known {
        return false;
      }
      ok := MountRamfs(path);
      if ok {
        mounts := mounts + 1;
      }
    }

    method MountAsRoot(ghost was: Tree, node: nat)
      requires Holds(Allocated(was, "/", true)) && Forest(was, Root()) && node == |was| && mounts <= MAX_MOUNTS
      modifies this`tree, this`root, mount
      ensures Valid() && tree == RootMounted(was) && root == node
    {
      RootMountedIsForest(was, Root());
      SetMount(node, node);
      assert tree == RootMounted(was);
      root := node;
      assert Root() == Some(|was|) && Forest(tree, Root());
    }

    method MountBelow(ghost was: Tree, node: nat, path: string) returns (ok: bool)
      requires Holds(Allocated(was, "/", true)) && Forest(was, Root()) && node == |was|
      requires NULL <= root < node && mounts <= MAX_MOUNTS
      modifies this`tree, mount
      ensures Valid()
      ensures var m := Resolve(was, Root(), path);
              && (ok <==> m.Some? && m.value < |was| && was[m.value].isDir)
              && tree == if ok then MountedOn(was, m.value) else Allocated(was, "/", true)
    {
      AllocatedIsForest(was, Root(), "/", true);
      var m := VfsResolvePath(path);
      if m == NULL {
        SameResolve(was, path);
        return false;
      }
      SameResolve(was, path);
      assert NodeStored(m);
      if !isDir[m] {
        return false;
      }
      SetMount(m, node);
      MountedIsForest(was, root, m);
      assert tree == MountedOn(was, m);
      ok := true;
    }

    lemma SameResolve(was: Tree, path: string)
      requires Linked(was) && Shape() && root < |was|
      ensures Resolve(Allocated(was, "/", true), Root(), path) == Resolve(was, Root(), path)
      ensures Resolve(was, Root(), path).Some? ==> Resolve(was, Root(), path).value < |was|
    {
      if root >= 0 && path != "" {
        AllocatedWalk(was, root, Components(path[1..]), "/", true);
        WalkInTree(was, root, Components(path[1..]));
      }
    }

    method SetMount(n: nat, m: nat)
      requires Holds(tree) && n < count
      modifies this`tree, mount
      ensures Holds(old(tree)[n := old(tree)[n].(mount := Some(m))])
    {
      mount[n] := m;
      tree := tree[n := tree[n].(mount := Some(m))];
      forall k | 0 <= k < count
        ensures NodeStored(k)
      {
        assert old(NodeStored(k));
      }
      forall k, i | 0 <= k < count && 0 <= i < MAX_CHILDREN
        ensures SlotStored(k, i)
      {
        assert old(SlotStored(k, i));
      }
    }
  }
}
