// The directory tree kept in the metadata keys: its invariant, and what creating and removing nodes does to it.
module Tree {
  import opened Basics
  import opened Redis
  import opened Store
  import opened Content
  import opened Meta

  // filepath.Dir of a clean path: what stands before the last slash, "/" when that is the first character.
  function LastSlash(p: string): (i: int)
    ensures -1 <= i < |p|
  {
    if p == [] then -1 else if p[|p| - 1] == '/' then |p| - 1 else LastSlash(p[..|p| - 1])
  }

  function Dir(p: string): string
  {
    var i := LastSlash(p);
    if i == -1 then "." else if i == 0 then "/" else p[..i]
  }

  // What filepath.Abs returns below the mount point: absolute, and not the file system root.
  predicate IsPath(p: string) { |p| > 1 && p[0] == '/' }

  lemma {:induction false} AbsoluteHasSlash(p: string)
    requires p != [] && p[0] == '/'
    ensures LastSlash(p) >= 0
  {
    if p[|p| - 1] != '/' {
      AbsoluteHasSlash(p[..|p| - 1]);
    }
  }

  lemma DirShorter(p: string)
    requires IsPath(p)
    ensures |Dir(p)| < |p|
  {
    AbsoluteHasSlash(p);
  }

  ghost predicate IsDirectory(cfg: Config, w: World, p: string) { Kids(cfg, w, p) != {} }

  ghost predicate NodeOk(cfg: Config, roots: set<string>, w: World, p: string)
  {
    // an existing inode is listed by an existing directory, its parent
    && (HasMode(cfg, w, p) && p !in roots ==>
          |Dir(p)| < |p| && HasMode(cfg, w, Dir(p)) && p in Kids(cfg, w, Dir(p)))
    // what a directory lists exists and belongs there
    && (forall q :: q in Kids(cfg, w, p) && q != "" ==>
          HasMode(cfg, w, q) && Dir(q) == p && |p| < |q| && q !in roots)
    // a directory exists and its children set has its sentinel
    && (IsDirectory(cfg, w, p) ==> "" in Kids(cfg, w, p) && HasMode(cfg, w, p))
    // only regular files have content
    && (!HasMode(cfg, w, p) || IsDirectory(cfg, w, p) ==> NoData(cfg, w, p))
  }

  ghost predicate TreeOk(cfg: Config, roots: set<string>, w: World)
  {
    && (forall r :: r in roots ==> r != "" && HasMode(cfg, w, r) && IsDirectory(cfg, w, r))
    && forall p :: NodeOk(cfg, roots, w, p)
  }

  // Every inode is reached from a mount point along listed entries, and nothing else is.
  lemma {:induction false} AllReachable(cfg: Config, roots: set<string>, w: World, p: string)
    requires TreeOk(cfg, roots, w) && p != ""
    ensures HasMode(cfg, w, p) <==> exists r :: r in roots && Below(cfg, w, r, p)
    decreases |p|
  {
    hide HasMode, Kids, NoData, Dir;
    assert NodeOk(cfg, roots, w, p) && NodeOk(cfg, roots, w, Dir(p));
    assert p in Kids(cfg, w, Dir(p)) ==> HasMode(cfg, w, p);
    if p in roots {
      assert Below(cfg, w, p, p);
    } else if |Dir(p)| < |p| && Dir(p) != "" {
      AllReachable(cfg, roots, w, Dir(p));
      if HasMode(cfg, w, p) {
        var r :| r in roots && Below(cfg, w, r, Dir(p));
        assert Below(cfg, w, r, p);
      }
    }
  }

  lemma DirectoriesExist(cfg: Config, roots: set<string>, w: World, p: string)
    requires TreeOk(cfg, roots, w)
    ensures IsDirectory(cfg, w, p) ==> HasMode(cfg, w, p) && "" in Kids(cfg, w, p)
    ensures p in roots ==> IsDirectory(cfg, w, p)
  {
    hide HasMode, Kids, NoData, Dir;
    assert NodeOk(cfg, roots, w, p);
  }

  // ---------- what calls leave alone ----------

  ghost predicate SameTree(cfg: Config, w: World, w': World)
  {
    forall q :: HasMode(cfg, w', q) == HasMode(cfg, w, q) && Kids(cfg, w', q) == Kids(cfg, w, q)
  }

  // The content of every file but one.
  ghost predicate FilesKept(cfg: Config, w: World, w': World, path: string)
  {
    w'.Keys == w.Keys && forall q :: q != path ==> SameFile(cfg, w, w', q)
  }

  // Exactly one inode more, without content, listed by its parent.
  ghost predicate Created(cfg: Config, w: World, w': World, path: string, dir: bool)
  {
    && (forall q :: HasMode(cfg, w', q) <==> q == path || HasMode(cfg, w, q))
    && Kids(cfg, w', path) == (if dir then {""} else {})
    && Kids(cfg, w', Dir(path)) == Kids(cfg, w, Dir(path)) + {path}
    && (forall q :: q != path && q != Dir(path) ==> Kids(cfg, w', q) == Kids(cfg, w, q))
    && NoData(cfg, w', path)
    && FilesKept(cfg, w, w', path)
  }

  // Any work on the content of one regular file leaves the tree and the other files alone.
  lemma FileWorkKeepsTree(cfg: Config, roots: set<string>, w: World, w': World, path: string)
    requires Inv(cfg, w, false) && Inv(cfg, w', false) && OnlyFile(w, w', path)
    requires TreeOk(cfg, roots, w) && ((HasMode(cfg, w, path) && !IsDirectory(cfg, w, path)) || NoData(cfg, w', path))
    ensures SameTree(cfg, w, w') && FilesKept(cfg, w, w', path) && TreeOk(cfg, roots, w')
  {
    hide HasMode, Kids, NoData, Dir, Inv, OnlyFile;
    forall q
      ensures HasMode(cfg, w', q) == HasMode(cfg, w, q) && Kids(cfg, w', q) == Kids(cfg, w, q)
      ensures q != path ==> SameFile(cfg, w, w', q)
    {
      NodeAfterFileWork(cfg, w, w', path, q);
    }
    SameClients(w, w', path);
    SameNodes(cfg, roots, w, w', path);
  }

  lemma SameNodes(cfg: Config, roots: set<string>, w: World, w': World, path: string)
    requires SameTree(cfg, w, w') && FilesKept(cfg, w, w', path)
    requires TreeOk(cfg, roots, w) && ((HasMode(cfg, w, path) && !IsDirectory(cfg, w, path)) || NoData(cfg, w', path))
    ensures TreeOk(cfg, roots, w')
  {
    hide HasMode, Kids, NoData, Dir, SameFile;
    forall p
      ensures NodeOk(cfg, roots, w', p)
    {
      assert NodeOk(cfg, roots, w, p);
      if p != path && NoData(cfg, w, p) {
        SameFileNoData(cfg, w, w', p);
      }
    }
  }

  lemma NodeAfterFileWork(cfg: Config, w: World, w': World, path: string, q: string)
    requires Inv(cfg, w, false) && Inv(cfg, w', false) && OnlyFile(w, w', path)
    ensures HasMode(cfg, w', q) == HasMode(cfg, w, q) && Kids(cfg, w', q) == Kids(cfg, w, q)
    ensures q != path ==> SameFile(cfg, w, w', q)
  {
    hide Keys.ModeKey, Keys.ChildrenKey, Keys.Prefix, Inv, Stripe, Listing, FileKey, OnlyFile;
    InvParts(cfg, w, false);
    InvParts(cfg, w', false);
    OthersUnchanged(cfg, w, w', path, q);
    var c := MetaClient(cfg, q);
    SameClients(w, w', path);
    assert SameAt(w, w', c, Keys.ModeKey(q)) && SameAt(w, w', c, Keys.ChildrenKey(q));
  }

  // ---------- creating ----------

  lemma CreateKeeps(cfg: Config, roots: set<string>, w: World, path: string, dir: bool, mode: seq<byte>)
    requires Inv(cfg, w, false) && TreeOk(cfg, roots, w)
    requires IsPath(path) && path !in roots && !HasMode(cfg, w, path) && IsDirectory(cfg, w, Dir(path))
    ensures var w' := SetChild(cfg, InitMeta(cfg, w, path, dir, mode), Dir(path), path);
      && Inv(cfg, w', false) && TreeOk(cfg, roots, w')
      && Created(cfg, w, w', path, dir)
  {
    hide HasMode, Kids, NoData, InitMeta, SetChild, Inv, OnlyMeta, WellTyped;
    var parent := Dir(path);
    DirShorter(path);
    assert NodeOk(cfg, roots, w, path) && NodeOk(cfg, roots, w, parent);
    InvParts(cfg, w, false);
    var w1 := InitMeta(cfg, w, path, dir, mode);
    InitMetaEffect(cfg, w, path, dir, mode);
    MetaKeepsData(cfg, w, w1, false, path);
    InvParts(cfg, w1, false);
    var w2 := SetChild(cfg, w1, parent, path);
    SetChildEffect(cfg, w1, parent, path);
    MetaKeepsData(cfg, w1, w2, false, parent);
    InvParts(cfg, w2, false);
    forall q
      ensures q != path ==> HasMode(cfg, w2, q) == HasMode(cfg, w, q)
      ensures q != path && q != parent ==> Kids(cfg, w2, q) == Kids(cfg, w, q)
      ensures NoData(cfg, w, q) ==> NoData(cfg, w2, q)
    {
      if q != path {
        MetaOfOthers(cfg, w, w1, path, q);
      }
      if q != parent {
        MetaOfOthers(cfg, w1, w2, parent, q);
      }
      if NoData(cfg, w, q) {
        SameNoData(cfg, w, w1, q);
        SameNoData(cfg, w1, w2, q);
      }
    }
    MetaOfOthers(cfg, w, w1, path, parent);
    MetaOfOthers(cfg, w1, w2, parent, path);
    assert SameData(cfg, w, w2);
    SameDataFiles(cfg, w, w2, path);
    NodesAfterCreate(cfg, roots, w, w2, path, dir);
  }

  lemma SameDataFiles(cfg: Config, w: World, w': World, path: string)
    requires SameData(cfg, w, w') && w'.Keys == w.Keys
    ensures FilesKept(cfg, w, w', path)
  {
    hide Stripe, Listing;
  }

  lemma InvParts(cfg: Config, w: World, strict: bool)
    requires Inv(cfg, w, strict)
    ensures Wired(cfg, w) && WellTyped(w)
  {
  }

  lemma SameNoData(cfg: Config, w: World, w': World, q: string)
    requires SameData(cfg, w, w') && w'.Keys == w.Keys && NoData(cfg, w, q)
    ensures NoData(cfg, w', q)
  {
    hide Stripe, Listing;
  }

  lemma NodesAfterCreate(cfg: Config, roots: set<string>, w: World, w': World, path: string, dir: bool)
    requires TreeOk(cfg, roots, w) && path !in roots && !HasMode(cfg, w, path) && IsDirectory(cfg, w, Dir(path))
    requires |Dir(path)| < |path|
    requires HasMode(cfg, w', path) && Kids(cfg, w', path) == (if dir then {""} else {})
    requires Kids(cfg, w', Dir(path)) == Kids(cfg, w, Dir(path)) + {path}
    requires forall q :: q != path ==> HasMode(cfg, w', q) == HasMode(cfg, w, q)
    requires forall q :: q != path && q != Dir(path) ==> Kids(cfg, w', q) == Kids(cfg, w, q)
    requires forall q :: NoData(cfg, w, q) ==> NoData(cfg, w', q)
    ensures TreeOk(cfg, roots, w')
  {
    hide HasMode, Kids, NoData, Dir;
    assert NodeOk(cfg, roots, w, path) && NodeOk(cfg, roots, w, Dir(path));
    forall p
      ensures NodeOk(cfg, roots, w', p)
    {
      assert NodeOk(cfg, roots, w, p);
      assert Dir(p) == path ==> NodeOk(cfg, roots, w, Dir(p));
    }
  }

  // ---------- removing ----------

  // q is top or below it, along listed entries.
  ghost predicate Below(cfg: Config, w: World, top: string, q: string)
    decreases |q|
  {
    q == top || (|Dir(q)| < |q| && q in Kids(cfg, w, Dir(q)) && Below(cfg, w, top, Dir(q)))
  }

  ghost predicate Gone(cfg: Config, w: World, q: string)
  {
    !HasMode(cfg, w, q) && Kids(cfg, w, q) == {} && NoData(cfg, w, q)
  }

  ghost predicate SameFile(cfg: Config, w: World, w': World, q: string)
  {
    && (forall id :: Stripe(cfg, w', q, id) == Stripe(cfg, w, q, id))
    && (forall c :: c in w ==> Listing(w', c, q) == Listing(w, c, q))
  }

  ghost predicate SameNode(cfg: Config, w: World, w': World, q: string)
  {
    HasMode(cfg, w', q) == HasMode(cfg, w, q) && Kids(cfg, w', q) == Kids(cfg, w, q) && SameFile(cfg, w, w', q)
  }

  // Entries are one level below their directory and no longer than bound; directories have no content.
  ghost predicate Shaped(cfg: Config, w: World, bound: nat)
  {
    && (forall p, q :: q in Kids(cfg, w, p) && q != "" ==> Dir(q) == p && |p| < |q| <= bound)
    && (forall p :: Kids(cfg, w, p) != {} ==> NoData(cfg, w, p))
  }

  // The nodes below any of the given tops are gone, all others are as they were.
  ghost predicate Removed(cfg: Config, w: World, w': World, tops: set<string>)
  {
    forall q :: if exists d :: d in tops && Below(cfg, w, d, q) then Gone(cfg, w', q) else SameNode(cfg, w, w', q)
  }

  lemma {:induction false} BelowLonger(cfg: Config, w: World, top: string, q: string)
    requires Below(cfg, w, top, q) && q != top
    ensures |top| < |q|
    decreases |q|
  {
    hide Kids, Dir;
    if Dir(q) != top {
      BelowLonger(cfg, w, top, Dir(q));
    }
  }

  // Two siblings have nothing below both of them.
  lemma {:induction false} SiblingsApart(cfg: Config, w: World, a: string, b: string, q: string)
    requires Dir(a) == Dir(b) && a != b && |Dir(a)| < |a| && |Dir(b)| < |b|
    requires Below(cfg, w, a, q)
    ensures !Below(cfg, w, b, q)
    decreases |q|
  {
    hide Kids, Dir;
    if q == a {
      if Below(cfg, w, b, a) {
        assert Below(cfg, w, b, Dir(a));
        if Dir(a) == b {
          assert |Dir(a)| < |a|;
        }
        NotBelowParent(cfg, w, b);
      }
    } else {
      SiblingsApart(cfg, w, a, b, Dir(q));
      if q == b {
        NotBelowParent(cfg, w, a);
      }
    }
  }

  lemma NotBelowParent(cfg: Config, w: World, b: string)
    requires |Dir(b)| < |b|
    ensures !Below(cfg, w, b, Dir(b))
  {
    hide Kids, Dir;
    if Below(cfg, w, b, Dir(b)) {
      BelowLonger(cfg, w, b, Dir(b));
    }
  }

  // What is below a directory is the directory itself and what is below its entries.
  lemma {:induction false} BelowSplit(cfg: Config, w: World, top: string, q: string)
    requires Below(cfg, w, top, q) && q != top
    ensures exists d :: d in Kids(cfg, w, top) && d != "" && Below(cfg, w, d, q)
    decreases |q|
  {
    hide Kids, Dir;
    if Dir(q) == top {
      assert q in Kids(cfg, w, top) && q != "" && Below(cfg, w, q, q);
    } else {
      BelowSplit(cfg, w, top, Dir(q));
      var d :| d in Kids(cfg, w, top) && d != "" && Below(cfg, w, d, Dir(q));
      assert Below(cfg, w, d, q);
    }
  }

  lemma {:induction false} BelowJoin(cfg: Config, w: World, top: string, d: string, q: string)
    requires d in Kids(cfg, w, top) && Dir(d) == top && |top| < |d| && Below(cfg, w, d, q)
    ensures Below(cfg, w, top, q)
    decreases |q|
  {
    hide Kids, Dir;
    if q == d {
      assert Below(cfg, w, top, top);
    } else {
      BelowJoin(cfg, w, top, d, Dir(q));
    }
  }

  // Removing what is below some siblings does not change what is below another.
  lemma {:induction false} BelowStable(cfg: Config, w: World, w': World, done: set<string>, top: string,
                                       c: string, q: string)
    requires Removed(cfg, w, w', done) && c !in done
    requires forall d :: d in done + {c} ==> Dir(d) == top && |top| < |d|
    ensures Below(cfg, w, c, q) <==> Below(cfg, w', c, q)
    decreases |q|
  {
    hide HasMode, Kids, NoData, Dir, SameFile;
    if q != c && |Dir(q)| < |q| {
      BelowStable(cfg, w, w', done, top, c, Dir(q));
      if Below(cfg, w, c, Dir(q)) {
        forall d | d in done
          ensures !Below(cfg, w, d, Dir(q))
        {
          SiblingsApart(cfg, w, c, d, Dir(q));
        }
        assert SameNode(cfg, w, w', Dir(q));
      }
    }
  }

  // One more sibling removed.
  lemma RemovedMore(cfg: Config, w: World, w1: World, w2: World, done: set<string>, top: string, c: string)
    requires Removed(cfg, w, w1, done) && Removed(cfg, w1, w2, {c}) && c !in done
    requires forall d :: d in done + {c} ==> Dir(d) == top && |top| < |d|
    requires w1.Keys == w.Keys && w2.Keys == w.Keys
    ensures Removed(cfg, w, w2, done + {c})
  {
    hide HasMode, Kids, Dir, Below, Stripe, Listing;
    forall q
      ensures if exists d :: d in done + {c} && Below(cfg, w, d, q) then Gone(cfg, w2, q) else SameNode(cfg, w, w2, q)
    {
      BelowStable(cfg, w, w1, done, top, c, q);
      if Below(cfg, w, c, q) {
        assert c in done + {c};
        assert c in {c} && Below(cfg, w1, c, q);
      } else {
        assert !exists d :: d in {c} && Below(cfg, w1, d, q);
        assert SameNode(cfg, w1, w2, q);
        if exists d :: d in done && Below(cfg, w, d, q) {
          var d :| d in done && Below(cfg, w, d, q);
          assert d in done + {c};
          assert Gone(cfg, w1, q);
          GoneStays(cfg, w1, w2, q);
        } else {
          assert SameNode(cfg, w, w1, q);
        }
      }
    }
  }

  lemma GoneStays(cfg: Config, w: World, w': World, q: string)
    requires Gone(cfg, w, q) && SameNode(cfg, w, w', q) && w'.Keys == w.Keys
    ensures Gone(cfg, w', q)
  {
    hide HasMode, Kids, Stripe, Listing;
  }

  lemma ShapedStays(cfg: Config, w: World, w': World, tops: set<string>, bound: nat)
    requires Shaped(cfg, w, bound) && Removed(cfg, w, w', tops) && w'.Keys == w.Keys
    ensures Shaped(cfg, w', bound)
  {
    hide HasMode, Kids, Dir, Below, Stripe, Listing;
    forall p
      ensures Kids(cfg, w', p) == {} ||
              (Kids(cfg, w', p) == Kids(cfg, w, p) && (NoData(cfg, w, p) ==> NoData(cfg, w', p)))
    {
      assert Gone(cfg, w', p) || SameNode(cfg, w, w', p);
    }
  }

  // A directory whose entries are all removed, and then its own metadata.
  lemma RemovedDirectory(cfg: Config, w: World, w1: World, w2: World, top: string, bound: nat)
    requires Shaped(cfg, w, bound) && Kids(cfg, w, top) != {}
    requires Removed(cfg, w, w1, Kids(cfg, w, top) - {""})
    requires w1.Keys == w.Keys && w2.Keys == w.Keys
    requires !HasMode(cfg, w2, top) && Kids(cfg, w2, top) == {}
    requires SameFile(cfg, w1, w2, top)
    requires forall q :: q != top ==> SameNode(cfg, w1, w2, q)
    ensures Removed(cfg, w, w2, {top})
  {
    hide HasMode, Kids, Dir, Below, Stripe, Listing;
    var kids := Kids(cfg, w, top) - {""};
    forall q
      ensures if exists d :: d in {top} && Below(cfg, w, d, q) then Gone(cfg, w2, q) else SameNode(cfg, w, w2, q)
    {
      assert (exists d :: d in {top} && Below(cfg, w, d, q)) <==> Below(cfg, w, top, q) by {
        assert top in {top};
      }
      if q == top {
        BelowSelf(cfg, w, top);
        forall d | d in kids
          ensures !Below(cfg, w, d, top)
        {
          NotBelowParent(cfg, w, d);
        }
        assert SameNode(cfg, w, w1, top);
        assert NoData(cfg, w, top);
        assert NoData(cfg, w2, top);
      } else if Below(cfg, w, top, q) {
        BelowSplit(cfg, w, top, q);
        var d :| d in Kids(cfg, w, top) && d != "" && Below(cfg, w, d, q);
        assert d in kids;
        assert Gone(cfg, w1, q);
        GoneStays(cfg, w1, w2, q);
      } else {
        forall d | d in kids
          ensures !Below(cfg, w, d, q)
        {
          if Below(cfg, w, d, q) {
            BelowJoin(cfg, w, top, d, q);
          }
        }
        assert SameNode(cfg, w, w1, q) && SameNode(cfg, w1, w2, q);
      }
    }
  }

  lemma BelowSelf(cfg: Config, w: World, top: string)
    ensures Below(cfg, w, top, top)
  {
  }

  // A regular file: its content, then its metadata. Nothing is below it.
  lemma RemovedFile(cfg: Config, w: World, w2: World, top: string, bound: nat)
    requires Shaped(cfg, w, bound) && Kids(cfg, w, top) == {}
    requires Gone(cfg, w2, top)
    requires forall q :: q != top ==> SameNode(cfg, w, w2, q)
    ensures Removed(cfg, w, w2, {top})
  {
    hide HasMode, Kids, Dir, Below, Stripe, Listing, NoData, SameFile;
    forall q
      ensures if exists d :: d in {top} && Below(cfg, w, d, q) then Gone(cfg, w2, q) else SameNode(cfg, w, w2, q)
    {
      BelowSelf(cfg, w, top);
      assert top in {top};
      if q != top && Below(cfg, w, top, q) {
        BelowSplit(cfg, w, top, q);
      }
    }
  }

  // Unlisting a node and removing all below it leaves a tree.
  lemma RemoveKeepsTree(cfg: Config, roots: set<string>, w: World, w1: World, w2: World, path: string)
    requires TreeOk(cfg, roots, w) && path !in roots && HasMode(cfg, w, path) && path != ""
    requires forall q :: HasMode(cfg, w1, q) == HasMode(cfg, w, q)
    requires forall q :: q != Dir(path) ==> Kids(cfg, w1, q) == Kids(cfg, w, q)
    requires Kids(cfg, w1, Dir(path)) == Kids(cfg, w, Dir(path)) - {path}
    requires forall q :: NoData(cfg, w, q) ==> NoData(cfg, w1, q)
    requires Removed(cfg, w1, w2, {path}) && w2.Keys == w1.Keys
    ensures TreeOk(cfg, roots, w2)
  {
    hide HasMode, Kids, Dir, Below, Stripe, Listing, NoData, SameFile;
    forall q
      ensures if Below(cfg, w1, path, q) then Gone(cfg, w2, q) else SameNode(cfg, w1, w2, q)
    {
      assert path in {path};
    }
    forall r | r in roots
      ensures HasMode(cfg, w2, r) && IsDirectory(cfg, w2, r)
    {
      assert NodeOk(cfg, roots, w, r);
      RootNotBelow(cfg, roots, w, w1, path, r);
      RootStays(cfg, roots, w, w1, w2, r);
    }
    forall p
      ensures NodeOk(cfg, roots, w2, p)
    {
      NodeAfterRemove(cfg, roots, w, w1, w2, path, p);
    }
  }

  lemma {:induction false} RootNotBelow(cfg: Config, roots: set<string>, w: World, w1: World, path: string, r: string)
    requires TreeOk(cfg, roots, w) && path !in roots && r in roots
    requires forall q :: Kids(cfg, w1, q) <= Kids(cfg, w, q)
    ensures !Below(cfg, w1, path, r)
  {
    hide HasMode, Kids, Dir, NoData;
    assert NodeOk(cfg, roots, w, Dir(r));
    assert r !in Kids(cfg, w, Dir(r));
  }

  lemma RootStays(cfg: Config, roots: set<string>, w: World, w1: World, w2: World, r: string)
    requires TreeOk(cfg, roots, w) && r in roots && HasMode(cfg, w1, r) == HasMode(cfg, w, r)
    requires "" in Kids(cfg, w1, r) && SameNode(cfg, w1, w2, r)
    ensures HasMode(cfg, w2, r) && IsDirectory(cfg, w2, r)
  {
    hide HasMode, Kids, SameFile;
  }

  lemma NodeAfterRemove(cfg: Config, roots: set<string>, w: World, w1: World, w2: World, path: string, p: string)
    requires TreeOk(cfg, roots, w) && path !in roots && HasMode(cfg, w, path) && path != ""
    requires forall q :: HasMode(cfg, w1, q) == HasMode(cfg, w, q)
    requires forall q :: q != Dir(path) ==> Kids(cfg, w1, q) == Kids(cfg, w, q)
    requires Kids(cfg, w1, Dir(path)) == Kids(cfg, w, Dir(path)) - {path}
    requires forall q :: NoData(cfg, w, q) ==> NoData(cfg, w1, q)
    requires forall q :: if Below(cfg, w1, path, q) then Gone(cfg, w2, q) else SameNode(cfg, w1, w2, q)
    requires w2.Keys == w1.Keys
    ensures NodeOk(cfg, roots, w2, p)
  {
    hide HasMode, Kids, Dir, Stripe, Listing;
    assert NodeOk(cfg, roots, w, p) && NodeOk(cfg, roots, w, Dir(p));
    if !Below(cfg, w1, path, p) {
      assert SameNode(cfg, w1, w2, p);
      // its parent stays: were the parent removed, p would be below it
      if HasMode(cfg, w, p) && p !in roots {
        assert p != path;
        assert Dir(p) == Dir(path) || Kids(cfg, w1, Dir(p)) == Kids(cfg, w, Dir(p));
        assert p in Kids(cfg, w1, Dir(p));
        assert !Below(cfg, w1, path, Dir(p));
        assert SameNode(cfg, w1, w2, Dir(p));
      }
      forall q | q in Kids(cfg, w2, p) && q != ""
        ensures HasMode(cfg, w2, q) && Dir(q) == p && |p| < |q| && q !in roots
      {
        assert q in Kids(cfg, w, p);
        assert q != path;
        assert !Below(cfg, w1, path, q);
        assert SameNode(cfg, w1, w2, q);
      }
      if NoData(cfg, w, p) {
        SameFileNoData(cfg, w1, w2, p);
      }
    }
  }

  lemma SameFileNoData(cfg: Config, w: World, w': World, q: string)
    requires SameFile(cfg, w, w', q) && w'.Keys == w.Keys && NoData(cfg, w, q)
    ensures NoData(cfg, w', q)
  {
    hide Stripe, Listing;
  }

  // ---------- the steps of a removal ----------

  // One inode less is listed; all else is as it was.
  ghost predicate Unlisted(cfg: Config, w: World, w': World, path: string)
  {
    && w'.Keys == w.Keys
    && forall q ::
      && HasMode(cfg, w', q) == HasMode(cfg, w, q)
      && Kids(cfg, w', q) == Kids(cfg, w, q) - {path}
      && SameFile(cfg, w, w', q)
  }

  // A whole removal: the path is unlisted, and everything below it is gone.
  ghost predicate RemovedBelow(cfg: Config, w: World, w': World, path: string)
  {
    && w'.Keys == w.Keys
    && forall q ::
      if Below(cfg, w, path, q) then Gone(cfg, w', q)
      else
        && HasMode(cfg, w', q) == HasMode(cfg, w, q)
        && Kids(cfg, w', q) == Kids(cfg, w, q) - {path}
        && SameFile(cfg, w, w', q)
  }

  lemma UnlistOne(cfg: Config, roots: set<string>, w: World, path: string, bound: nat)
    requires Inv(cfg, w, false) && TreeOk(cfg, roots, w) && Shaped(cfg, w, bound)
    requires HasMode(cfg, w, path) && path !in roots && path != ""
    ensures Wired(cfg, w)
    ensures var w' := RemoveChild(cfg, w, Dir(path), path);
      && Inv(cfg, w', false) && Unlisted(cfg, w, w', path) && Shaped(cfg, w', bound) && |path| <= bound
  {
    hide HasMode, Kids, NoData, RemoveChild, Inv, OnlyMeta, WellTyped, SameFile, Dir, Shaped;
    var parent := Dir(path);
    assert NodeOk(cfg, roots, w, path);
    EntriesBounded(cfg, w, bound, parent, path);
    InvParts(cfg, w, false);
    var w' := RemoveChild(cfg, w, parent, path);
    RemoveChildEffect(cfg, w, parent, path);
    MetaKeepsData(cfg, w, w', false, parent);
    forall q
      ensures HasMode(cfg, w', q) == HasMode(cfg, w, q) && Kids(cfg, w', q) == Kids(cfg, w, q) - {path}
      ensures SameFile(cfg, w, w', q)
    {
      assert NodeOk(cfg, roots, w, q);
      if q != parent {
        MetaOfOthers(cfg, w, w', parent, q);
        assert path !in Kids(cfg, w, q);
      }
      SameDataFile(cfg, w, w', q);
    }
    ShapedUnlisted(cfg, w, w', path, bound);
  }

  lemma EntriesBounded(cfg: Config, w: World, bound: nat, p: string, q: string)
    requires Shaped(cfg, w, bound) && q in Kids(cfg, w, p) && q != ""
    ensures |q| <= bound
  {
    hide Kids, Dir, NoData;
  }

  lemma ShapedUnlisted(cfg: Config, w: World, w': World, path: string, bound: nat)
    requires Shaped(cfg, w, bound) && Unlisted(cfg, w, w', path)
    ensures Shaped(cfg, w', bound)
  {
    hide HasMode, Kids, NoData, Dir, SameFile;
    forall p
      ensures NoData(cfg, w, p) ==> NoData(cfg, w', p)
    {
      if NoData(cfg, w, p) {
        SameFileNoData(cfg, w, w', p);
      }
    }
  }

  lemma SameDataFile(cfg: Config, w: World, w': World, q: string)
    requires SameData(cfg, w, w') && w'.Keys == w.Keys
    ensures SameFile(cfg, w, w', q) && (NoData(cfg, w, q) ==> NoData(cfg, w', q))
  {
    hide Stripe, Listing;
  }

  lemma {:induction false} BelowUnlisted(cfg: Config, w: World, w': World, path: string, q: string)
    requires Unlisted(cfg, w, w', path)
    ensures Below(cfg, w', path, q) <==> Below(cfg, w, path, q)
    decreases |q|
  {
    hide HasMode, Kids, Dir, SameFile;
    if q != path && |Dir(q)| < |q| {
      BelowUnlisted(cfg, w, w', path, Dir(q));
    }
  }

  lemma RemovedTree(cfg: Config, roots: set<string>, w: World, w1: World, w2: World, path: string)
    requires TreeOk(cfg, roots, w) && HasMode(cfg, w, path) && path !in roots && path != ""
    requires Unlisted(cfg, w, w1, path) && Removed(cfg, w1, w2, {path}) && w2.Keys == w1.Keys
    ensures TreeOk(cfg, roots, w2) && RemovedBelow(cfg, w, w2, path)
  {
    hide HasMode, Kids, NoData, Dir, Below, SameFile, Gone;
    forall q
      ensures NoData(cfg, w, q) ==> NoData(cfg, w1, q)
      ensures Below(cfg, w1, path, q) <==> Below(cfg, w, path, q)
      ensures q != Dir(path) ==> Kids(cfg, w1, q) == Kids(cfg, w, q)
    {
      assert NodeOk(cfg, roots, w, q);
      BelowUnlisted(cfg, w, w1, path, q);
      if NoData(cfg, w, q) {
        SameFileNoData(cfg, w, w1, q);
      }
    }
    RemoveKeepsTree(cfg, roots, w, w1, w2, path);
    forall q
      ensures if Below(cfg, w, path, q) then Gone(cfg, w2, q)
              else HasMode(cfg, w2, q) == HasMode(cfg, w, q) && Kids(cfg, w2, q) == Kids(cfg, w, q) - {path} &&
                   SameFile(cfg, w, w2, q)
    {
      assert path in {path};
      assert (exists d :: d in {path} && Below(cfg, w1, d, q)) <==> Below(cfg, w1, path, q);
      if !Below(cfg, w, path, q) {
        assert SameNode(cfg, w1, w2, q);
        SameFileTrans(cfg, w, w1, w2, q);
      }
    }
  }

  lemma SameFileTrans(cfg: Config, w: World, w1: World, w2: World, q: string)
    requires w1.Keys == w.Keys && SameFile(cfg, w, w1, q) && SameFile(cfg, w1, w2, q)
    ensures SameFile(cfg, w, w2, q)
  {
    hide Stripe, Listing;
  }

  lemma NoneRemoved(cfg: Config, w: World)
    ensures Removed(cfg, w, w, {})
  {
    hide HasMode, Kids, Below, Stripe, Listing;
  }

  // Deleting the metadata of one path.
  lemma MetaGone(cfg: Config, w: World, path: string)
    requires Inv(cfg, w, false)
    ensures Wired(cfg, w)
    ensures var w' := DelMeta(cfg, w, path);
      && Inv(cfg, w', false) && w'.Keys == w.Keys
      && !HasMode(cfg, w', path) && Kids(cfg, w', path) == {}
      && SameFile(cfg, w, w', path) && (NoData(cfg, w, path) ==> NoData(cfg, w', path))
      && forall q :: q != path ==> SameNode(cfg, w, w', q)
  {
    hide HasMode, Kids, NoData, DelMeta, Inv, OnlyMeta, WellTyped, SameFile;
    InvParts(cfg, w, false);
    var w' := DelMeta(cfg, w, path);
    DelMetaEffect(cfg, w, path);
    MetaKeepsData(cfg, w, w', false, path);
    forall q
      ensures SameFile(cfg, w, w', q) && (NoData(cfg, w, q) ==> NoData(cfg, w', q))
      ensures q != path ==> SameNode(cfg, w, w', q)
    {
      SameDataFile(cfg, w, w', q);
      if q != path {
        MetaOfOthers(cfg, w, w', path, q);
      }
    }
  }

  // A regular file without its content and then without its metadata.
  lemma FileGone(cfg: Config, w: World, w1: World, w2: World, path: string)
    requires SameTree(cfg, w, w1) && FilesKept(cfg, w, w1, path)
    requires !HasMode(cfg, w2, path) && Kids(cfg, w2, path) == {} && NoData(cfg, w2, path) && w2.Keys == w1.Keys
    requires forall q :: q != path ==> SameNode(cfg, w1, w2, q)
    ensures Gone(cfg, w2, path) && forall q :: q != path ==> SameNode(cfg, w, w2, q)
  {
    hide HasMode, Kids, NoData, SameFile;
    forall q | q != path
      ensures SameNode(cfg, w, w2, q)
    {
      assert SameNode(cfg, w1, w2, q);
      SameFileTrans(cfg, w, w1, w2, q);
    }
  }
}
