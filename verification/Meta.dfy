// Inode metadata in Redis: which paths exist, which are directories, and what a directory lists.
module Meta {
  import opened Basics
  import opened Redis
  import opened Store
  import opened Content
  import opened Calls
  import opened Files

  // All metadata of a path lives on the instance that owns its braced prefix.
  function MetaClient(cfg: Config, path: string): string { cfg.owner(Keys.Prefix(path)) }

  predicate HasMode(cfg: Config, w: World, path: string)
  {
    var c := MetaClient(cfg, path);
    c in w && Exists(w[c], Keys.ModeKey(path))
  }

  // The stored mode of an inode.
  function ModeOf(cfg: Config, w: World, path: string): seq<byte>
  {
    var c := MetaClient(cfg, path);
    if c in w then StringAt(w[c], Keys.ModeKey(path)) else []
  }

  // Members of the children set; a set that does not exist is empty.
  function Kids(cfg: Config, w: World, path: string): set<string>
  {
    var c := MetaClient(cfg, path);
    if c in w then Members(w[c], Keys.ChildrenKey(path)) else {}
  }

  predicate HasChildrenKey(cfg: Config, w: World, path: string)
  {
    var c := MetaClient(cfg, path);
    c in w && Exists(w[c], Keys.ChildrenKey(path))
  }

  // No byte and no listed stripe is stored under the path.
  ghost predicate NoData(cfg: Config, w: World, path: string)
  {
    && (forall id :: Stripe(cfg, w, path, id) == [])
    && (forall c :: c in w ==> Listing(w, c, path) == {})
  }

  // ---------- the metadata commands ----------

  function OnClient(cfg: Config, w: World, path: string, db: Instance): World
  {
    w[MetaClient(cfg, path) := db]
  }

  // initMeta: one MULTI/EXEC block.
  function InitMeta(cfg: Config, w: World, path: string, dir: bool, mode: seq<byte>): World
    requires MetaClient(cfg, path) in w
  {
    var db := w[MetaClient(cfg, path)];
    var db' := if dir then SAdd(db, Keys.ChildrenKey(path), "") else db;
    OnClient(cfg, w, path, SetNX(db', Keys.ModeKey(path), mode))
  }

  function SetChild(cfg: Config, w: World, path: string, child: string): World
    requires MetaClient(cfg, path) in w
  {
    OnClient(cfg, w, path, SAdd(w[MetaClient(cfg, path)], Keys.ChildrenKey(path), child))
  }

  function RemoveChild(cfg: Config, w: World, path: string, child: string): World
    requires MetaClient(cfg, path) in w
  {
    OnClient(cfg, w, path, SRem(w[MetaClient(cfg, path)], Keys.ChildrenKey(path), child))
  }

  function DelMeta(cfg: Config, w: World, path: string): World
    requires MetaClient(cfg, path) in w
  {
    OnClient(cfg, w, path,
             Unlink(Unlink(w[MetaClient(cfg, path)], Keys.ChildrenKey(path)), Keys.ModeKey(path)))
  }

  // ---------- what they change ----------

  // Only the metadata keys of one path differ.
  ghost predicate OnlyMeta(w: World, w': World, path: string)
  {
    && w'.Keys == w.Keys && WellTyped(w')
    && forall c, k :: c in w && k != Keys.ModeKey(path) && k != Keys.ChildrenKey(path) ==> SameAt(w, w', c, k)
  }

  // The rest of the world as seen through the namespace and the data store.
  ghost predicate SameData(cfg: Config, w: World, w': World)
  {
    && (forall n, id :: Stripe(cfg, w', n, id) == Stripe(cfg, w, n, id))
    && (forall c, n :: c in w ==> Listing(w', c, n) == Listing(w, c, n))
  }

  lemma MetaKeepsData(cfg: Config, w: World, w': World, strict: bool, path: string)
    requires Inv(cfg, w, strict) && OnlyMeta(w, w', path)
    ensures SameData(cfg, w, w') && Inv(cfg, w', strict) && w'.Keys == w.Keys
  {
    hide Keys.StripeKey, Keys.StripesKey, Keys.ModeKey, Keys.ChildrenKey, Keys.Itoa, Keys.Atoi, Inv;
    InvWired(cfg, w, strict);
    forall n, id
      ensures Stripe(cfg, w', n, id) == Stripe(cfg, w, n, id)
    {
      Keys.KeyFamiliesDisjoint(n, id, path);
      OwnerIn(cfg, w, n, id);
      assert SameAt(w, w', OwnerOf(cfg, n, id), Keys.StripeKey(n, id));
    }
    forall c, n | c in w
      ensures Listing(w', c, n) == Listing(w, c, n)
    {
      Keys.KeyFamiliesDisjoint(n, 0, path);
      assert SameAt(w, w', c, Keys.StripesKey(n));
    }
    SameDataInv(cfg, w, w', strict);
  }

  lemma OwnerIn(cfg: Config, w: World, name: string, id: int)
    requires Wired(cfg, w)
    ensures OwnerOf(cfg, name, id) in w
  {
  }

  lemma SameDataInv(cfg: Config, w: World, w': World, strict: bool)
    requires Inv(cfg, w, strict) && SameData(cfg, w, w') && w'.Keys == w.Keys && WellTyped(w')
    ensures Inv(cfg, w', strict)
  {
    hide Stripe, Listing, OwnerOf, Keys.Itoa, Keys.Atoi;
    forall name, id
      ensures StripeOk(cfg, w', name, id)
    {
      assert StripeOk(cfg, w, name, id);
      OwnerIn(cfg, w, name, id);
    }
    forall c, name, m | c in w' && m in Listing(w', c, name)
      ensures ListedOk(cfg, w', strict, c, name, m)
    {
      assert ListedOk(cfg, w, strict, c, name, m);
    }
  }

  lemma MetaOfOthers(cfg: Config, w: World, w': World, path: string, q: string)
    requires Wired(cfg, w) && OnlyMeta(w, w', path) && q != path
    ensures HasMode(cfg, w', q) == HasMode(cfg, w, q) && ModeOf(cfg, w', q) == ModeOf(cfg, w, q)
    ensures Kids(cfg, w', q) == Kids(cfg, w, q) && HasChildrenKey(cfg, w', q) == HasChildrenKey(cfg, w, q)
  {
    hide Keys.ModeKey, Keys.ChildrenKey, Keys.Prefix;
    Keys.MetaKeyInjective(path, q);
    Keys.KeyFamiliesDisjoint(path, 0, q);
    Keys.KeyFamiliesDisjoint(q, 0, path);
    assert SameAt(w, w', MetaClient(cfg, q), Keys.ModeKey(q));
    assert SameAt(w, w', MetaClient(cfg, q), Keys.ChildrenKey(q));
  }

  lemma MetaTyped(w: World, c: string, db: Instance)
    requires WellTyped(w) && TypedInstance(db)
    ensures WellTyped(w[c := db])
  {
  }

  // In a typed instance a set key never holds a string, nor the other way round.
  lemma TypedKeys(db: Instance, path: string)
    requires TypedInstance(db)
    ensures Keys.ModeKey(path) !in db.sets && Keys.ChildrenKey(path) !in db.strings
    ensures Exists(db, Keys.ChildrenKey(path)) <==> Members(db, Keys.ChildrenKey(path)) != {}
    ensures Keys.ModeKey(path) != Keys.ChildrenKey(path)
    ensures !IsSetKey(Keys.ModeKey(path)) && IsSetKey(Keys.ChildrenKey(path))
  {
    Keys.TailsOfKeys(path, 0);
    assert "mode"[0] == 'm' && "children"[0] == 'c' && "stripes"[0] == 's';
  }

  // A missing key reads as no string and no set, so two instances agree on a key when both parts do.
  lemma InitInstance(db: Instance, list: string, key: string, dir: bool, mode: seq<byte>)
    requires TypedInstance(db) && IsSetKey(list) && !IsSetKey(key)
    ensures var db' := SetNX(if dir then SAdd(db, list, "") else db, key, mode);
      && TypedInstance(db') && Exists(db', key)
      && StringAt(db', key) == (if Exists(db, key) then StringAt(db, key) else mode)
      && Members(db', list) == Members(db, list) + (if dir then {""} else {})
      && (forall k :: k != key ==> (k in db'.strings <==> k in db.strings) && StringAt(db', k) == StringAt(db, k))
      && (forall k :: k != list ==> (k in db'.sets <==> k in db.sets) && Members(db', k) == Members(db, k))
  {
    hide IsSetKey;
    assert "" in Members(db, list) + {""};
  }

  lemma InitMetaEffect(cfg: Config, w: World, path: string, dir: bool, mode: seq<byte>)
    requires Wired(cfg, w) && WellTyped(w)
    ensures var w' := InitMeta(cfg, w, path, dir, mode);
      && OnlyMeta(w, w', path)
      && HasMode(cfg, w', path)
      && ModeOf(cfg, w', path) == (if HasMode(cfg, w, path) then ModeOf(cfg, w, path) else mode)
      && Kids(cfg, w', path) == Kids(cfg, w, path) + (if dir then {""} else {})
  {
    hide Keys.ModeKey, Keys.ChildrenKey, Keys.Prefix, IsSetKey;
    var c := MetaClient(cfg, path);
    assert TypedInstance(w[c]);
    TypedKeys(w[c], path);
    InitInstance(w[c], Keys.ChildrenKey(path), Keys.ModeKey(path), dir, mode);
    var w' := InitMeta(cfg, w, path, dir, mode);
    hide SetNX, SAdd;
    MetaTyped(w, c, w'[c]);
    assert w' == w[c := w'[c]];
  }

  lemma SetChildEffect(cfg: Config, w: World, path: string, child: string)
    requires Wired(cfg, w) && WellTyped(w)
    ensures var w' := SetChild(cfg, w, path, child);
      && OnlyMeta(w, w', path)
      && HasMode(cfg, w', path) == HasMode(cfg, w, path)
      && Kids(cfg, w', path) == Kids(cfg, w, path) + {child}
  {
    hide Keys.ModeKey, Keys.ChildrenKey, Keys.Prefix, IsSetKey;
    var c := MetaClient(cfg, path);
    assert TypedInstance(w[c]);
    TypedKeys(w[c], path);
    var w' := SetChild(cfg, w, path, child);
    MetaTyped(w, c, w'[c]);
    assert w' == w[c := w'[c]];
  }

  lemma RemoveChildEffect(cfg: Config, w: World, path: string, child: string)
    requires Wired(cfg, w) && WellTyped(w)
    ensures var w' := RemoveChild(cfg, w, path, child);
      && OnlyMeta(w, w', path)
      && HasMode(cfg, w', path) == HasMode(cfg, w, path)
      && Kids(cfg, w', path) == Kids(cfg, w, path) - {child}
  {
    hide Keys.ModeKey, Keys.ChildrenKey, Keys.Prefix, IsSetKey;
    var c := MetaClient(cfg, path);
    assert TypedInstance(w[c]);
    TypedKeys(w[c], path);
    var w' := RemoveChild(cfg, w, path, child);
    MetaTyped(w, c, w'[c]);
    assert w' == w[c := w'[c]];
  }

  lemma DelMetaEffect(cfg: Config, w: World, path: string)
    requires Wired(cfg, w) && WellTyped(w)
    ensures var w' := DelMeta(cfg, w, path);
      OnlyMeta(w, w', path) && !HasMode(cfg, w', path) && Kids(cfg, w', path) == {}
  {
    hide Keys.ModeKey, Keys.ChildrenKey, Keys.Prefix, IsSetKey;
    var c := MetaClient(cfg, path);
    assert TypedInstance(w[c]);
    TypedKeys(w[c], path);
    var w' := DelMeta(cfg, w, path);
    MetaTyped(w, c, w'[c]);
    assert w' == w[c := w'[c]];
  }

  // A directory is what has a children key, and the key exists exactly when the set has a member.
  lemma DirectoryIs(cfg: Config, w: World, path: string)
    requires Wired(cfg, w) && WellTyped(w)
    ensures HasChildrenKey(cfg, w, path) <==> Kids(cfg, w, path) != {}
  {
    hide Keys.ModeKey, Keys.ChildrenKey, Keys.Prefix, IsSetKey;
    assert TypedInstance(w[MetaClient(cfg, path)]);
    TypedKeys(w[MetaClient(cfg, path)], path);
  }

  // Removing the content of one file changes no metadata, and no other file's content.
  lemma DataRemoveEffect(cfg: Config, w: World, strict: bool, path: string)
    requires Inv(cfg, w, strict)
    ensures var w' := RemoveSpec(cfg, w, path);
      && Inv(cfg, w', strict) && w'.Keys == w.Keys && NoData(cfg, w', path)
      && (forall q :: HasMode(cfg, w', q) == HasMode(cfg, w, q) && Kids(cfg, w', q) == Kids(cfg, w, q))
      && (forall q :: q != path && NoData(cfg, w, q) ==> NoData(cfg, w', q))
  {
    hide Keys.ModeKey, Keys.ChildrenKey, Keys.Prefix, RemoveSpec, Inv, Stripe, Listing, FileKey;
    var w' := RemoveSpec(cfg, w, path);
    RemoveClears(cfg, w, strict, path);
    InvWired(cfg, w, strict);
    InvWired(cfg, w', strict);
    forall q
      ensures HasMode(cfg, w', q) == HasMode(cfg, w, q) && Kids(cfg, w', q) == Kids(cfg, w, q)
      ensures q != path && NoData(cfg, w, q) ==> NoData(cfg, w', q)
    {
      OthersUnchanged(cfg, w, w', path, q);
      var c := MetaClient(cfg, q);
      assert SameAt(w, w', c, Keys.ModeKey(q)) && SameAt(w, w', c, Keys.ChildrenKey(q));
    }
  }
}
