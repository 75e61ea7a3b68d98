// The file system object: directory operations, the client-side inode cache, and opening of files.
module Namespace {
  import opened Basics
  import opened Redis
  import opened Store
  import opened Content
  import opened Calls
  import opened Meta
  import opened Tree
  import opened DataStores
  import opened MemFiles

  datatype Status =
    | Ok | NotManaged | NoParent | AlreadyExists | NotFound | NotDirectory | NotEmpty | IsADirectory
    | Crash  // a nil dereference

  // A cached inode: whether it is a directory, once that has been asked.
  type Cache = map<string, Option<bool>>

  // Every cached inode exists, and what is cached about it is true.
  ghost predicate CacheOk(cfg: Config, w: World, cache: Cache)
  {
    forall p :: p in cache ==>
      HasMode(cfg, w, p) && (cache[p].Some? ==> (cache[p].value <==> IsDirectory(cfg, w, p)))
  }

  // ---------- names in order ----------

  // Go's < on strings.
  predicate Less(a: string, b: string)
  {
    if b == [] then false
    else if a == [] then true
    else if a[0] != b[0] then a[0] < b[0]
    else Less(a[1..], b[1..])
  }

  // A proper prefix comes first; else the first different character decides.
  lemma {:induction false} LessExactly(a: string, b: string)
    ensures Less(a, b) <==> a < b || exists k :: 0 <= k < |a| && k < |b| && a[..k] == b[..k] && a[k] < b[k]
    decreases a
  {
    if a != [] && b != [] && a[0] == b[0] {
      LessExactly(a[1..], b[1..]);
      SameHead(a, b);
    } else if a != [] && b != [] && a[0] < b[0] {
      assert a[..0] == b[..0];
    }
  }

  lemma SameHead(a: string, b: string)
    requires a != [] && b != [] && a[0] == b[0]
    ensures a < b <==> a[1..] < b[1..]
    ensures (exists k :: 0 <= k < |a| && k < |b| && a[..k] == b[..k] && a[k] < b[k]) <==>
      exists k :: 0 <= k < |a[1..]| && k < |b[1..]| && a[1..][..k] == b[1..][..k] && a[1..][k] < b[1..][k]
  {
    var c, d := a[1..], b[1..];
    assert a == [a[0]] + c && b == [b[0]] + d;
    forall k | 0 <= k < |c| && k < |d|
      ensures a[..k + 1] == b[..k + 1] <==> c[..k] == d[..k]
    {
      assert a[..k + 1] == [a[0]] + c[..k] && b[..k + 1] == [b[0]] + d[..k];
      assert a[..k + 1][1..] == c[..k] && b[..k + 1][1..] == d[..k];
    }
    if k :| 0 <= k < |a| && k < |b| && a[..k] == b[..k] && a[k] < b[k] {
      assert c[..k - 1] == d[..k - 1] && c[k - 1] < d[k - 1];
    }
    if k :| 0 <= k < |c| && k < |d| && c[..k] == d[..k] && c[k] < d[k] {
      assert a[..k + 1] == b[..k + 1] && a[k + 1] < b[k + 1];
    }
  }

  predicate InOrder(s: seq<string>) { forall i, j :: 0 <= i < j < |s| ==> Less(s[i], s[j]) }

  lemma {:induction false} LessTotal(a: string, b: string)
    ensures a == b || Less(a, b) || Less(b, a)
  {
    if a != [] && b != [] && a[0] == b[0] {
      LessTotal(a[1..], b[1..]);
      assert a == [a[0]] + a[1..] && b == [b[0]] + b[1..];
    }
  }

  lemma {:induction false} LessTransitive(a: string, b: string, c: string)
    requires Less(a, b) && Less(b, c)
    ensures Less(a, c)
    decreases a
  {
    if a != [] && a[0] == b[0] == c[0] {
      LessTransitive(a[1..], b[1..], c[1..]);
    }
  }

  // sort.Sort, by insertion.
  method InsertName(s: seq<string>, x: string) returns (r: seq<string>)
    requires InOrder(s) && x !in s
    ensures InOrder(r) && multiset(r) == multiset(s) + multiset{x}
  {
    hide Less;
    var i := 0;
    while i < |s| && Less(s[i], x)
      invariant 0 <= i <= |s|
      invariant forall k :: 0 <= k < i ==> Less(s[k], x)
    {
      i := i + 1;
    }
    r := s[..i] + [x] + s[i..];
    assert s == s[..i] + s[i..];
    if i < |s| {
      assert s[i] in s;
      LessTotal(s[i], x);
      forall k | i < k < |s|
        ensures Less(x, s[k])
      {
        LessTransitive(x, s[i], s[k]);
      }
    }
  }

  // The members of a set, in order.
  method Sorted(names: set<string>) returns (r: seq<string>)
    ensures InOrder(r) && |r| == |names|
    ensures forall x :: x in r <==> x in names
  {
    hide Less;
    r := [];
    var left := names;
    while left != {}
      invariant left <= names && InOrder(r) && |r| + |left| == |names|
      invariant forall x :: x in r <==> x in names && x !in left
      decreases |left|
    {
      AnElement(left);
      var x :| x in left;
      ghost var before := r;
      r := InsertName(r, x);
      assert forall y :: y in r <==> y in multiset(r);
      assert forall y :: y in before <==> y in multiset(before);
      assert |multiset(r)| == |r|;
      left := left - {x};
    }
  }

  // A bound exists, because every instance holds finitely many sets.
  ghost function NameBound(w: World): (bound: nat)
    ensures forall c, k, m :: c in w && k in w[c].sets && m in w[c].sets[k] ==> |m| <= bound
  {
    var lengths := set c, k, m | c in w && k in w[c].sets && m in w[c].sets[k] :: |m|;
    assert forall c, k, m :: c in w && k in w[c].sets && m in w[c].sets[k] ==> |m| in lengths;
    Max(0, MaxOf(lengths))
  }

  lemma TreeShaped(cfg: Config, roots: set<string>, w: World)
    requires TreeOk(cfg, roots, w)
    ensures Shaped(cfg, w, NameBound(w))
  {
    hide HasMode, NoData, Dir, Keys.ChildrenKey;
    forall p
      ensures forall q :: q in Kids(cfg, w, p) && q != "" ==> Dir(q) == p && |p| < |q| <= NameBound(w)
      ensures Kids(cfg, w, p) != {} ==> NoData(cfg, w, p)
    {
      assert NodeOk(cfg, roots, w, p);
    }
  }

  // What filepath.Abs returns is absolute.
  predicate IsAbs(path: string) { path != "" && path[0] == '/' }

  lemma CacheAfterCreate(cfg: Config, w: World, w': World, cache: Cache, path: string, dir: bool)
    requires CacheOk(cfg, w, cache) && Created(cfg, w, w', path, dir) && !HasMode(cfg, w, path)
    requires IsDirectory(cfg, w, Dir(path)) && Dir(path) != path
    ensures CacheOk(cfg, w', cache[path := None])
  {
    hide HasMode, Kids, NoData, Dir, FilesKept;
  }

  lemma CacheSameTree(cfg: Config, w: World, w': World, cache: Cache)
    requires CacheOk(cfg, w, cache) && SameTree(cfg, w, w')
    ensures CacheOk(cfg, w', cache)
  {
    hide HasMode, Kids;
  }

  // Only the removed path itself leaves the cache, so the cache stays right if and only if nothing else below the path
  // was cached.
  lemma CacheAfterRemove(cfg: Config, roots: set<string>, w: World, w': World, cache: Cache, path: string)
    requires TreeOk(cfg, roots, w) && CacheOk(cfg, w, cache) && RemovedBelow(cfg, w, w', path) && path != ""
    ensures CacheOk(cfg, w', cache - {path}) <==> forall q :: q in cache && Below(cfg, w, path, q) ==> q == path
  {
    hide HasMode, Kids, NoData, Dir, Below, SameFile;
    forall q
      ensures Kids(cfg, w, q) != {} ==> "" in Kids(cfg, w, q)
    {
      assert NodeOk(cfg, roots, w, q);
    }
    if CacheOk(cfg, w', cache - {path}) {
      forall q | q in cache && Below(cfg, w, path, q)
        ensures q == path
      {
        assert Gone(cfg, w', q);
        assert q != path ==> q in cache - {path};
      }
    }
    if forall q :: q in cache && Below(cfg, w, path, q) ==> q == path {
      forall p | p in cache - {path}
        ensures HasMode(cfg, w', p) == HasMode(cfg, w, p) && (IsDirectory(cfg, w', p) <==> IsDirectory(cfg, w, p))
      {
        assert !Below(cfg, w, path, p);
        assert Kids(cfg, w, p) != {} ==> "" in Kids(cfg, w', p);
      }
    }
  }

  predicate IsPrefix(a: string, b: string) { |a| <= |b| && b[..|a|] == a }

  // No other mount point begins like this one, so every path below this one is in its own tree.
  predicate Apart(root: string, roots: set<string>)
  {
    forall r :: r in roots && r != root ==> !IsPrefix(root, r)
  }

  class RedisFS {
    const store: DataStore
    const root: string
    var inodes: Cache
    ghost const roots: set<string>  // the mount points of all trees in the store

    ghost predicate TreeValid()
      reads this, store
    {
      store.Valid() && TreeOk(store.cfg, roots, store.world) && root in inodes && root in roots && Apart(root, roots)
    }

    ghost predicate Valid()
      reads this, store
    {
      TreeValid() && CacheOk(store.cfg, store.world, inodes)
    }

    // Whether path is below the mount point, as ValidatePath tests it.
    predicate Managed(path: string) { IsPrefix(root, path) }

    // NewRedisFS, on a store with any trees: an empty one, one with the tree that an earlier process left for this
    // mount point, or one with those of other mounts. The mount point is not inside another mount's tree, nor
    // another's in its.
    constructor (store: DataStore, root: string, mode: seq<byte>, ghost mounted: set<string>)
      requires store.Valid() && root != "" && TreeOk(store.cfg, mounted, store.world) && Apart(root, mounted)
      requires root in mounted || !HasMode(store.cfg, store.world, root)
      modifies store
      ensures Valid() && this.store == store && this.root == root && inodes == map[root := None]
      ensures roots == mounted + {root}
      ensures store.world.Keys == old(store.world).Keys
      ensures forall q :: SameFile(store.cfg, old(store.world), store.world, q)
      ensures forall q :: HasMode(store.cfg, store.world, q) <==> q == root || HasMode(store.cfg, old(store.world), q)
      ensures forall q ::
        Kids(store.cfg, store.world, q) == Kids(store.cfg, old(store.world), q) + (if q == root then {""} else {})
    {
      hide HasMode, Kids, NoData, TreeOk, Inv, SameFile, CacheOk;
      this.store, this.root, this.inodes, this.roots := store, root, map[root := None], mounted + {root};
      new;
      InitRoot(mode, mounted);
    }

    // initMeta on the mount point.
    method InitRoot(mode: seq<byte>, ghost mounted: set<string>)
      requires store.Valid() && root != "" && TreeOk(store.cfg, mounted, store.world)
      requires root in mounted || !HasMode(store.cfg, store.world, root)
      modifies store
      ensures store.Valid() && TreeOk(store.cfg, mounted + {root}, store.world)
      ensures CacheOk(store.cfg, store.world, map[root := None])
      ensures store.world.Keys == old(store.world).Keys
      ensures forall q :: SameFile(store.cfg, old(store.world), store.world, q)
      ensures forall q :: HasMode(store.cfg, store.world, q) <==> q == root || HasMode(store.cfg, old(store.world), q)
      ensures forall q ::
        Kids(store.cfg, store.world, q) == Kids(store.cfg, old(store.world), q) + (if q == root then {""} else {})
    {
      hide HasMode, Kids, NoData, TreeOk, Inv, InitMeta, SameFile, CacheOk;
      MountKeeps(store.cfg, mounted, root, store.world, mode);
      InvParts(store.cfg, store.world, false);
      store.world := InitMeta(store.cfg, store.world, root, true, mode);
    }

    // ---------- inode cache ----------

    // exists() asks Redis, unless the inode is cached.
    method GetInode(path: string) returns (found: bool)
      requires Valid()
      modifies this`inodes
      ensures Valid() && found == HasMode(store.cfg, store.world, path)
      ensures inodes == if found && path !in old(inodes) then old(inodes)[path := None] else old(inodes)
    {
      hide TreeOk, HasMode, IsDirectory, Inv;
      if path in inodes {
        return true;
      }
      found := Lookup(path);
      if found {
        inodes := inodes[path := None];
      }
    }

    method Lookup(path: string) returns (found: bool)
      requires store.Valid()
      ensures found == HasMode(store.cfg, store.world, path)
    {
      InvParts(store.cfg, store.world, false);
      var c := MetaClient(store.cfg, path);
      found := Exists(store.world[c], Keys.ModeKey(path));
    }

    // IsDir() of a cached inode: the first answer is kept.
    method IsDir(path: string) returns (dir: bool)
      requires Valid() && path in inodes
      modifies this`inodes
      ensures Valid() && dir == IsDirectory(store.cfg, store.world, path)
      ensures inodes == old(inodes)[path := Some(dir)]
    {
      hide TreeOk, HasMode, IsDirectory, Inv;
      var known := inodes[path];
      if known == None {
        dir := AskDirectory(path);
        inodes := inodes[path := Some(dir)];
      } else {
        dir := known.value;
      }
    }

    method AskDirectory(path: string) returns (dir: bool)
      requires store.Valid()
      ensures dir == IsDirectory(store.cfg, store.world, path)
    {
      InvParts(store.cfg, store.world, false);
      DirectoryIs(store.cfg, store.world, path);
      var c := MetaClient(store.cfg, path);
      dir := Exists(store.world[c], Keys.ChildrenKey(path));
    }

    // fileInfo: the root is its own case; any other path needs a directory for a parent.
    method FileInfo(path: string) returns (status: Status, found: bool)
      requires Valid()
      modifies this`inodes
      ensures Valid()
      ensures status == if path == root || IsDirectory(store.cfg, store.world, Dir(path)) then Ok else NoParent
      ensures status == Ok ==> found == HasMode(store.cfg, store.world, path)
      ensures inodes.Keys <= old(inodes).Keys + {path, Dir(path)}
      ensures inodes.Keys >= old(inodes).Keys + (if status == Ok && found then {path} else {})
    {
      hide TreeOk, HasMode, IsDirectory, Inv, Dir, CacheOk;
      DirectoriesExist(store.cfg, roots, store.world, Dir(path));
      DirectoriesExist(store.cfg, roots, store.world, path);
      if path == root {
        return Ok, true;
      }
      var parent := Dir(path);
      found := GetInode(parent);
      if !found {
        return NoParent, false;
      }
      var dir := IsDir(parent);
      if !dir {
        return NoParent, false;
      }
      found := GetInode(path);
      status := Ok;
    }

    // ---------- creating ----------

    method CreateInode(path: string, dir: bool, mode: seq<byte>)
      requires Valid() && IsPath(path) && path !in roots && !HasMode(store.cfg, store.world, path)
      requires IsDirectory(store.cfg, store.world, Dir(path))
      modifies this`inodes, store
      ensures Valid() && inodes == old(inodes)[path := None]
      ensures Created(store.cfg, old(store.world), store.world, path, dir)
    {
      hide HasMode, Kids, NoData, TreeOk, Inv, IsDirectory, CacheOk, Created, InitMeta, SetChild, Dir;
      ghost var w := store.world;
      CreateKeeps(store.cfg, roots, w, path, dir, mode);
      DirShorter(path);
      InvParts(store.cfg, w, false);
      store.world := InitMeta(store.cfg, store.world, path, dir, mode);
      ClientsKept(store.cfg, w, path, dir, mode);
      store.world := SetChild(store.cfg, store.world, Dir(path), path);
      CacheAfterCreate(store.cfg, w, store.world, inodes, path, dir);
      inodes := inodes[path := None];
    }

    // Mkdir succeeds exactly on a new path in an existing directory, and on the mount point itself.
    method Mkdir(path: string, mode: seq<byte>) returns (status: Status)
      requires Valid() && IsAbs(path)
      modifies this, store
      ensures Valid()
      ensures status == (
        if !Managed(path) then NotManaged
        else if path == root then Ok
        else if !IsDirectory(store.cfg, old(store.world), Dir(path)) then NoParent
        else if HasMode(store.cfg, old(store.world), path) then AlreadyExists
        else Ok)
      ensures status == Ok && path != root ==>
        Created(store.cfg, old(store.world), store.world, path, true) && path in inodes
      ensures status != Ok || path == root ==> store.world == old(store.world)
      ensures inodes.Keys >= old(inodes).Keys
    {
      hide HasMode, Kids, NoData, TreeOk, Inv, IsDirectory, CacheOk, Dir, Created;
      if !Managed(path) {
        return NotManaged;
      }
      var found: bool;
      status, found := FileInfo(path);
      if status != Ok {
        return;
      }
      if path == root {
        return Ok;
      }
      if found {
        return AlreadyExists;
      }
      RootNamed(store.cfg, roots, store.world, root);
      CreateInode(path, true, mode);
      return Ok;
    }

    // OpenFile. A new file is created empty; O_TRUNC empties an existing one; nothing else changes the store.
    method OpenFile(path: string, create: bool, excl: bool, trunc: bool, append: bool, mode: seq<byte>)
      returns (status: Status, f: MemFile?)
      requires Valid() && IsAbs(path)
      modifies this, store
      ensures Valid()
      ensures status == (
        if !Managed(path) then NotManaged
        else if path != root && !IsDirectory(store.cfg, old(store.world), Dir(path)) then NoParent
        else if !HasMode(store.cfg, old(store.world), path) then (if create then Ok else NotFound)
        else if create && excl then AlreadyExists
        else if IsDirectory(store.cfg, old(store.world), path) then IsADirectory
        else Ok)
      ensures status == Ok <==> f != null
      ensures f == null ==> store.world == old(store.world)
      ensures f != null ==>
        && fresh(f) && f.Valid() && f.store == store && f.path == path
        && f.offset == (if append then Size(store.cfg, store.world, path) else 0)
        && (if HasMode(store.cfg, old(store.world), path)
            then EmptiedIf(trunc, store.cfg, old(store.world), store.world, path)
            else Created(store.cfg, old(store.world), store.world, path, false))
    {
      hide HasMode, Kids, NoData, TreeOk, Inv, IsDirectory, CacheOk, Dir, Created, EmptiedIf, Size;
      f := null;
      if !Managed(path) {
        return NotManaged, null;
      }
      DirectoriesExist(store.cfg, roots, store.world, root);
      ghost var w := store.world;
      var found: bool;
      status, found := FileInfo(path);
      if status != Ok {
        return;
      }
      if !found {
        if !create {
          return NotFound, null;
        }
        RootNamed(store.cfg, roots, store.world, root);
        CreateInode(path, false, mode);
        CreatedFile(store.cfg, w, store.world, path);
      } else if create && excl {
        return AlreadyExists, null;
      }
      ghost var w1 := store.world;
      var dir := IsDir(path);
      if dir {
        return IsADirectory, null;
      }
      if trunc {
        Truncate(path);
        if !found {
          StillCreated(store.cfg, w, w1, store.world, path);
        }
      }
      if found {
        OpenedFile(trunc, store.cfg, w, store.world, path);
      }
      f := new MemFile(store, path);
      var pos, err := f.Seek(0, if append then 2 else 0);
      status := Ok;
    }

    // O_TRUNC on a regular file.
    method Truncate(path: string)
      requires Valid() && !IsDirectory(store.cfg, store.world, path)
      modifies store
      ensures Valid() && Emptied(store.cfg, old(store.world), store.world, path)
    {
      hide HasMode, Kids, NoData, TreeOk, Inv, IsDirectory, RemoveSpec, LastStripe, CacheOk;
      ghost var w := store.world;
      DataRemoveEffect(store.cfg, w, false, path);
      store.Remove(path);
      FileWorkKeepsTree(store.cfg, roots, w, store.world, path);
      CacheSameTree(store.cfg, w, store.world, inodes);
    }

    // ---------- reading ----------

    // ReadDir lists exactly the entries of a directory, in order. The children set always has its sentinel, so the
    // capacity len(paths)-1 that getChildren asks for is never negative.
    method ReadDir(path: string) returns (status: Status, names: seq<string>)
      requires Valid() && IsAbs(path)
      modifies this`inodes
      ensures Valid()
      ensures status == (
        if !Managed(path) then NotManaged
        else if path != root && !IsDirectory(store.cfg, store.world, Dir(path)) then NoParent
        else if !IsDirectory(store.cfg, store.world, path) then NotDirectory
        else Ok)
      ensures status == Ok ==>
        && InOrder(names)
        && (forall x :: x in names <==> HasMode(store.cfg, store.world, x) && x !in roots && Dir(x) == path)
        && |names| == |Kids(store.cfg, store.world, path)| - 1
      ensures old(inodes).Keys <= inodes.Keys <= old(inodes).Keys + {path, Dir(path)}
    {
      hide HasMode, NoData, TreeOk, Inv, CacheOk, Dir, Kids, Less;
      names := [];
      if !Managed(path) {
        return NotManaged, [];
      }
      var found: bool;
      status, found := FileInfo(path);
      if status != Ok {
        return;
      }
      DirectoriesExist(store.cfg, roots, store.world, path);
      if !found {
        return NotDirectory, [];
      }
      var dir := IsDir(path);
      if !dir {
        return NotDirectory, [];
      }
      var members := SMembers(path);
      names := Sorted(members - {""});
      EntriesAre(store.cfg, roots, store.world, path);
    }

    method SMembers(path: string) returns (members: set<string>)
      requires store.Valid()
      ensures members == Kids(store.cfg, store.world, path)
    {
      InvParts(store.cfg, store.world, false);
      members := Members(store.world[MetaClient(store.cfg, path)], Keys.ChildrenKey(path));
    }

    // ---------- removing ----------

    // Inode.remove: a file loses its content, a directory first everything it lists; then the metadata.
    method RemoveTree(path: string, ghost bound: nat)
      requires store.Valid() && Shaped(store.cfg, store.world, bound) && |path| <= bound
      modifies store
      ensures store.Valid() && store.world.Keys == old(store.world).Keys
      ensures Removed(store.cfg, old(store.world), store.world, {path})
      decreases bound - |path|, 1
    {
      hide HasMode, Kids, NoData, Inv, Below, Removed, SameFile, Dir, RemoveSpec, LastStripe, Stripe, Listing, Shaped,
           DelMeta, RemoveChild, OnlyFile, Gone, SameTree, FilesKept;
      ghost var cfg, w := store.cfg, store.world;
      var dir := AskDirectory(path);
      if !dir {
        DataRemoveEffect(cfg, w, false, path);
        store.Remove(path);
        FileWorkSameTree(cfg, w, store.world, path);
      } else {
        RemoveEntries(path, bound);
      }
      ghost var w1 := store.world;
      MetaGone(cfg, w1, path);
      store.world := DelMeta(store.cfg, store.world, path);
      if dir {
        RemovedDirectory(cfg, w, w1, store.world, path, bound);
      } else {
        FileGone(cfg, w, w1, store.world, path);
        RemovedFile(cfg, w, store.world, path, bound);
      }
    }

    // The loop over the children, in any order.
    method RemoveEntries(path: string, ghost bound: nat)
      requires store.Valid() && Shaped(store.cfg, store.world, bound) && |path| <= bound
      modifies store
      ensures store.Valid() && store.world.Keys == old(store.world).Keys
      ensures Removed(store.cfg, old(store.world), store.world, Kids(store.cfg, old(store.world), path) - {""})
      decreases bound - |path|, 0
    {
      hide HasMode, Kids, NoData, Inv, Below, Removed, SameFile, Dir, Stripe, Listing, Shaped, Gone;
      ghost var cfg, w := store.cfg, store.world;
      var members := SMembers(path);
      var left := members - {""};
      ghost var done: set<string> := {};
      NoneRemoved(cfg, w);
      while left != {}
        invariant store.Valid() && store.world.Keys == w.Keys
        invariant left + done == members - {""} && left !! done
        invariant Shaped(cfg, store.world, bound)
        invariant Removed(cfg, w, store.world, done)
        decreases |left|
      {
        AnElement(left);
        var c :| c in left;
        ghost var w1 := store.world;
        EntriesOk(cfg, w, bound, path, done + {c});
        RemoveTree(c, bound);
        RemovedMore(cfg, w, w1, store.world, done, path, c);
        ShapedStays(cfg, w1, store.world, {c}, bound);
        left, done := left - {c}, done + {c};
      }
      assert done == Kids(cfg, w, path) - {""};
    }

    // Remove unlists the path and removes everything below it; the tree stays a tree. Only the removed path itself is
    // dropped from the cache, so the cache stays right exactly when nothing else below the path was cached. Removing
    // the mount point fails on its missing parent.
    method Remove(path: string) returns (status: Status)
      requires Valid() && IsAbs(path)
      modifies this, store
      ensures status == (
        if !Managed(path) then NotManaged
        else if path == root then Crash
        else if !IsDirectory(store.cfg, old(store.world), Dir(path)) then NoParent
        else if !HasMode(store.cfg, old(store.world), path) then NotFound
        else Ok)
      ensures TreeValid()
      ensures status == Ok ==>
        && path !in inodes && inodes.Keys >= old(inodes).Keys - {path}
        && RemovedBelow(store.cfg, old(store.world), store.world, path)
        && (Valid() <==> forall q :: q in old(inodes) && Below(store.cfg, old(store.world), path, q) ==> q == path)
      ensures status != Ok ==> Valid() && store.world == old(store.world)
    {
      hide HasMode, Kids, NoData, TreeOk, Inv, IsDirectory, CacheOk, Dir, Below, RemovedBelow, Shaped, RemoveChild;
      if !Managed(path) {
        return NotManaged;
      }
      var found: bool;
      status, found := FileInfo(path);
      if status != Ok {
        return;
      }
      if path == root {
        return Crash;
      }
      if !found {
        return NotFound;
      }
      RootNamed(store.cfg, roots, store.world, root);
      DirShorter(path);
      NotBelowParent(store.cfg, store.world, path);
      RemoveInode(path);
    }

    // Both steps of Remove on an existing inode: out of its parent's children set, then the inode itself.
    method RemoveInode(path: string)
      requires Valid() && path !in roots && path != "" && HasMode(store.cfg, store.world, path)
      modifies this, store
      ensures TreeValid() && inodes == old(inodes) - {path}
      ensures RemovedBelow(store.cfg, old(store.world), store.world, path)
      ensures CacheOk(store.cfg, store.world, inodes) <==>
        forall q :: q in old(inodes) && Below(store.cfg, old(store.world), path, q) ==> q == path
    {
      hide HasMode, Kids, NoData, TreeOk, Inv, IsDirectory, CacheOk, Dir, Below, RemovedBelow, Shaped, RemoveChild,
           Removed, Unlisted, NameBound;
      ghost var w := store.world;
      TreeShaped(store.cfg, roots, w);
      UnlistOne(store.cfg, roots, w, path, NameBound(w));
      store.world := RemoveChild(store.cfg, store.world, Dir(path), path);
      ghost var w1 := store.world;
      RemoveTree(path, NameBound(w));
      RemovedTree(store.cfg, roots, w, w1, store.world, path);
      CacheAfterRemove(store.cfg, roots, w, store.world, inodes, path);
      inodes := inodes - {path};
    }

    // RmDir removes exactly the empty directories below the mount point, and always leaves the cache right.
    method RmDir(path: string) returns (status: Status)
      requires Valid() && IsAbs(path)
      modifies this, store
      ensures Valid()
      ensures status == (
        if !Managed(path) then NotManaged
        else if path != root && !IsDirectory(store.cfg, old(store.world), Dir(path)) then NoParent
        else if !IsDirectory(store.cfg, old(store.world), path) then NotDirectory
        else if Kids(store.cfg, old(store.world), path) != {""} then NotEmpty
        else if path == root then Crash
        else Ok)
      ensures status == Ok ==> RemovedBelow(store.cfg, old(store.world), store.world, path)
      ensures status != Ok ==> store.world == old(store.world)
    {
      hide HasMode, Kids, NoData, TreeOk, Inv, CacheOk, Dir, Below, RemovedBelow, Less;
      var names: seq<string>;
      status, names := ReadDir(path);
      if status != Ok {
        return;
      }
      DirectoriesExist(store.cfg, roots, store.world, path);
      ghost var kids := Kids(store.cfg, store.world, path);
      EntriesAre(store.cfg, roots, store.world, path);
      if |names| != 0 {
        assert names[0] in names;
        assert names[0] in kids - {""};
        return NotEmpty;
      }
      assert forall x :: x in kids - {""} ==> x in names;
      assert kids == {""} + (kids - {""});
      NothingBelow(store.cfg, store.world, path);
      status := Remove(path);
    }
  }

  // ---------- the steps of the calls ----------

  ghost predicate NoInodes(cfg: Config, w: World)
  {
    forall q :: !HasMode(cfg, w, q) && Kids(cfg, w, q) == {} && NoData(cfg, w, q)
  }

  // One file without content, everything else as it was.
  ghost predicate Emptied(cfg: Config, w: World, w': World, path: string)
  {
    SameTree(cfg, w, w') && FilesKept(cfg, w, w', path) && NoData(cfg, w', path)
  }

  ghost predicate EmptiedIf(trunc: bool, cfg: Config, w: World, w': World, path: string)
  {
    if trunc then Emptied(cfg, w, w', path) else w' == w
  }

  lemma OpenedFile(trunc: bool, cfg: Config, w: World, w': World, path: string)
    requires if trunc then Emptied(cfg, w, w', path) else w' == w
    ensures EmptiedIf(trunc, cfg, w, w', path)
  {
    hide Emptied;
  }

  lemma CreatedFile(cfg: Config, w: World, w': World, path: string)
    requires Created(cfg, w, w', path, false)
    ensures !IsDirectory(cfg, w', path) && HasMode(cfg, w', path)
  {
    hide HasMode, Kids, NoData, Dir, FilesKept;
  }

  lemma StillCreated(cfg: Config, w: World, w1: World, w2: World, path: string)
    requires Created(cfg, w, w1, path, false) && Emptied(cfg, w1, w2, path)
    ensures Created(cfg, w, w2, path, false)
  {
    hide HasMode, Kids, NoData, Dir, SameFile;
    forall q | q != path
      ensures SameFile(cfg, w, w2, q)
    {
      SameFileTrans(cfg, w, w1, w2, q);
    }
  }

  lemma RootNamed(cfg: Config, roots: set<string>, w: World, root: string)
    requires TreeOk(cfg, roots, w) && root in roots
    ensures root != ""
  {
  }

  lemma ClientsKept(cfg: Config, w: World, path: string, dir: bool, mode: seq<byte>)
    requires Wired(cfg, w)
    ensures InitMeta(cfg, w, path, dir, mode).Keys == w.Keys
  {
  }

  lemma FileWorkSameTree(cfg: Config, w: World, w': World, path: string)
    requires Inv(cfg, w, false) && Inv(cfg, w', false) && OnlyFile(w, w', path)
    ensures SameTree(cfg, w, w') && FilesKept(cfg, w, w', path)
  {
    hide HasMode, Kids, NoData, Dir, Inv, OnlyFile;
    forall q
      ensures HasMode(cfg, w', q) == HasMode(cfg, w, q) && Kids(cfg, w', q) == Kids(cfg, w, q)
      ensures q != path ==> SameFile(cfg, w, w', q)
    {
      NodeAfterFileWork(cfg, w, w', path, q);
    }
    SameClients(w, w', path);
  }

  lemma EntriesOk(cfg: Config, w: World, bound: nat, path: string, some: set<string>)
    requires Shaped(cfg, w, bound) && some <= Kids(cfg, w, path) - {""}
    ensures forall d :: d in some ==> Dir(d) == path && |path| < |d| <= bound
  {
    hide Kids, Dir, NoData;
  }

  lemma NothingBelow(cfg: Config, w: World, path: string)
    requires Kids(cfg, w, path) == {""}
    ensures forall q :: Below(cfg, w, path, q) ==> q == path
  {
    hide Kids, Dir, Below;
    forall q | Below(cfg, w, path, q)
      ensures q == path
    {
      if q != path {
        BelowSplit(cfg, w, path, q);
      }
    }
  }

  // Mounting makes the mount point a directory and leaves existing trees as they are.
  lemma MountKeeps(cfg: Config, mounted: set<string>, root: string, w: World, mode: seq<byte>)
    requires Inv(cfg, w, false) && root != "" && TreeOk(cfg, mounted, w)
    requires root in mounted || !HasMode(cfg, w, root)
    ensures Wired(cfg, w)
    ensures var w' := InitMeta(cfg, w, root, true, mode);
      && Inv(cfg, w', false) && TreeOk(cfg, mounted + {root}, w') && w'.Keys == w.Keys
      && (forall q :: SameFile(cfg, w, w', q))
      && CacheOk(cfg, w', map[root := None])
      && (forall q :: HasMode(cfg, w', q) <==> q == root || HasMode(cfg, w, q))
      && (forall q :: Kids(cfg, w', q) == Kids(cfg, w, q) + (if q == root then {""} else {}))
  {
    hide HasMode, Kids, NoData, InitMeta, Inv, OnlyMeta, WellTyped, SameFile, Dir, TreeOk;
    InvParts(cfg, w, false);
    var w' := InitMeta(cfg, w, root, true, mode);
    InitMetaEffect(cfg, w, root, true, mode);
    MetaKeepsData(cfg, w, w', false, root);
    forall q
      ensures HasMode(cfg, w', q) <==> q == root || HasMode(cfg, w, q)
      ensures Kids(cfg, w', q) == Kids(cfg, w, q) + (if q == root then {""} else {})
      ensures SameFile(cfg, w, w', q) && (NoData(cfg, w, q) ==> NoData(cfg, w', q))
    {
      SameDataFile(cfg, w, w', q);
      if q != root {
        MetaOfOthers(cfg, w, w', root, q);
      }
    }
    MountedTree(cfg, mounted, root, w, w');
  }

  lemma MountedTree(cfg: Config, mounted: set<string>, root: string, w: World, w': World)
    requires root != "" && TreeOk(cfg, mounted, w) && (root in mounted || !HasMode(cfg, w, root))
    requires forall q :: HasMode(cfg, w', q) <==> q == root || HasMode(cfg, w, q)
    requires forall q :: Kids(cfg, w', q) == Kids(cfg, w, q) + (if q == root then {""} else {})
    requires forall q :: NoData(cfg, w, q) ==> NoData(cfg, w', q)
    ensures TreeOk(cfg, mounted + {root}, w')
  {
    hide HasMode, Kids, NoData, Dir;
    assert NodeOk(cfg, mounted, w, root);
    forall p
      ensures NodeOk(cfg, mounted + {root}, w', p)
    {
      assert NodeOk(cfg, mounted, w, p);
    }
  }

  // A store without inodes holds no tree.
  lemma NoTrees(cfg: Config, w: World)
    requires NoInodes(cfg, w)
    ensures TreeOk(cfg, {}, w)
  {
    hide HasMode, Kids, NoData, Dir;
  }

  // What a directory lists is what exists one level below it.
  lemma EntriesAre(cfg: Config, roots: set<string>, w: World, path: string)
    requires TreeOk(cfg, roots, w)
    ensures forall x :: x in Kids(cfg, w, path) - {""} <==> HasMode(cfg, w, x) && x !in roots && Dir(x) == path
  {
    hide HasMode, Kids, NoData, Dir;
    forall x
      ensures x in Kids(cfg, w, path) - {""} <==> HasMode(cfg, w, x) && x !in roots && Dir(x) == path
    {
      assert NodeOk(cfg, roots, w, x) && NodeOk(cfg, roots, w, path);
    }
  }

  // Reading, writing and truncating through a handle of a regular file that still exists keeps the file system valid.
  lemma HandleKeeps(cfg: Config, roots: set<string>, w: World, w': World, cache: Cache, path: string)
    requires Inv(cfg, w, false) && Inv(cfg, w', false) && OnlyFile(w, w', path)
    requires TreeOk(cfg, roots, w) && HasMode(cfg, w, path) && !IsDirectory(cfg, w, path)
    requires CacheOk(cfg, w, cache)
    ensures TreeOk(cfg, roots, w') && CacheOk(cfg, w', cache) && SameTree(cfg, w, w') && FilesKept(cfg, w, w', path)
  {
    hide HasMode, Kids, TreeOk, NoData, Inv, CacheOk, OnlyFile, SameTree, FilesKept;
    FileWorkKeepsTree(cfg, roots, w, w', path);
    CacheSameTree(cfg, w, w', cache);
  }

  // Removing a directory that is not empty leaves its cached entries behind: the cache then still holds an inode that
  // no longer exists.
  method StaleEntry(store: DataStore) returns (fs: RedisFS)
    requires store.Valid() && NoInodes(store.cfg, store.world)
    modifies store
    ensures fs.TreeValid() && !fs.Valid()
    ensures "/m/d/e" in fs.inodes && !HasMode(fs.store.cfg, fs.store.world, "/m/d/e")
  {
    hide HasMode, Kids, NoData, TreeOk, Inv, CacheOk, Dir, FilesKept, NoInodes, SameFile;
    StaleNames();
    ghost var cfg := store.cfg;
    NoTrees(cfg, store.world);
    NoInode(cfg, store.world, "/m");
    fs := new RedisFS(store, "/m", [], {});
    DirectoriesExist(cfg, fs.roots, store.world, "/m");
    NoInode(cfg, old(store.world), "/m/d");
    NoInode(cfg, old(store.world), "/m/d/e");
    var made := fs.Mkdir("/m/d", []);
    DirectoriesExist(cfg, fs.roots, store.world, "/m/d");
    made := fs.Mkdir("/m/d/e", []);
    ghost var w := store.world;
    assert "/m/d/e" in Kids(cfg, w, Dir("/m/d/e"));
    assert Below(cfg, w, "/m/d", "/m/d");
    assert Below(cfg, w, "/m/d", "/m/d/e");
    DirectoriesExist(cfg, fs.roots, w, "/m");
    made := fs.Remove("/m/d");
    assert Gone(cfg, store.world, "/m/d/e");
  }

  lemma NoInode(cfg: Config, w: World, q: string)
    requires NoInodes(cfg, w)
    ensures !HasMode(cfg, w, q)
  {
    hide HasMode, Kids, NoData;
  }

  lemma StaleNames()
    ensures Dir("/m/d") == "/m" && Dir("/m/d/e") == "/m/d"
  {
    var a, b := "/m/d", "/m/d/e";
    assert a[..3] == "/m/" && LastSlash(a[..3]) == 2 && LastSlash(a) == 2 && a[..2] == "/m";
    assert b[..5] == "/m/d/" && LastSlash(b[..5]) == 4 && LastSlash(b) == 4 && b[..4] == "/m/d";
  }
}
