// A file as a partial map from positions to bytes, and the invariant that ties the stripe lists to it.
module Content {
  import opened Basics
  import opened Redis
  import opened Striping
  import opened Store

  // The byte at position p, if the stripe that holds p is long enough.
  function ByteAt(cfg: Config, w: World, name: string, p: nat): Option<byte>
    requires cfg.stripeSize >= 1
  {
    At(Stripe(cfg, w, name, StripeOf(cfg.stripeSize, p)), OffsetIn(cfg.stripeSize, p))
  }

  function At(s: seq<byte>, j: int): Option<byte> { if 0 <= j < |s| then Some(s[j]) else None }

  // strict is the invariant of calls of at most 100 stripes; without it, stripe 0 may be listed though empty.
  ghost predicate StripeOk(cfg: Config, w: World, name: string, id: int)
  {
    && |Stripe(cfg, w, name, id)| <= cfg.stripeSize
    && (Stripe(cfg, w, name, id) != [] ==> id >= 0 && Keys.Itoa(id) in Listing(w, OwnerOf(cfg, name, id), name))
  }

  ghost predicate ListedOk(cfg: Config, w: World, strict: bool, c: string, name: string, member: string)
  {
    var id := Keys.Atoi(member);
    && id >= 0 && member == Keys.Itoa(id)
    && c == OwnerOf(cfg, name, id)
    && (Stripe(cfg, w, name, id) != [] || (!strict && id == 0))
  }

  ghost predicate Inv(cfg: Config, w: World, strict: bool)
  {
    && Wired(cfg, w) && WellTyped(w)
    && (forall name, id :: StripeOk(cfg, w, name, id))
    && (forall c, name, member :: c in w && member in Listing(w, c, name) ==> ListedOk(cfg, w, strict, c, name, member))
  }

  predicate LegalOp(cfg: Config, strict: bool, op: StripeOp)
  {
    match op
    case Write(id, off, data) => id >= 0 && off + |data| <= cfg.stripeSize && (data != [] || (!strict && id == 0))
    case Erase(_) => true
    case Trim(_, size) => size >= 1
  }

  lemma NewStripeFits(cfg: Config, strict: bool, old_: seq<byte>, op: StripeOp)
    requires LegalOp(cfg, strict, op) && |old_| <= cfg.stripeSize
    ensures |NewStripe(cfg, old_, op)| <= cfg.stripeSize
    ensures !op.Erase? && old_ != [] ==> NewStripe(cfg, old_, op) != []
    ensures op.Write? && op.data != [] ==> NewStripe(cfg, old_, op) != []
    ensures !op.Write? && old_ == [] ==> NewStripe(cfg, old_, op) == []
  {
  }

  lemma ApplyKeepsStripe(cfg: Config, w: World, strict: bool, name: string, op: StripeOp, n: string, i: int)
    requires Inv(cfg, w, strict) && LegalOp(cfg, strict, op)
    ensures StripeOk(cfg, Apply(cfg, w, name, op), n, i)
  {
    hide Apply, Stripe, Listing, Keys.Itoa, Keys.Atoi;
    ApplyEffect(cfg, w, name, op);
    assert StripeOk(cfg, w, n, i) && StripeOk(cfg, w, name, op.id);
    NewStripeFits(cfg, strict, Stripe(cfg, w, name, op.id), op);
    Keys.AtoiItoa(op.id);
    Keys.AtoiItoa(i);
  }

  lemma ApplyKeepsListed(cfg: Config, w: World, strict: bool, name: string, op: StripeOp,
                         c: string, n: string, m: string)
    requires Inv(cfg, w, strict) && LegalOp(cfg, strict, op)
    requires c in w && m in Listing(Apply(cfg, w, name, op), c, n)
    ensures ListedOk(cfg, Apply(cfg, w, name, op), strict, c, n, m)
  {
    hide Apply, Stripe, Listing, NewStripe, Keys.Itoa, Keys.Atoi;
    ApplyEffect(cfg, w, name, op);
    assert m in Listing(w, c, n) ==> ListedOk(cfg, w, strict, c, n, m);
    assert StripeOk(cfg, w, name, op.id);
    NewStripeFits(cfg, strict, Stripe(cfg, w, name, op.id), op);
    Keys.AtoiItoa(op.id);
  }

  lemma ApplyKeepsInv(cfg: Config, w: World, strict: bool, name: string, op: StripeOp)
    requires Inv(cfg, w, strict) && LegalOp(cfg, strict, op)
    ensures Inv(cfg, Apply(cfg, w, name, op), strict)
  {
    ApplyTyped(cfg, w, name, op);
    forall n, i
      ensures StripeOk(cfg, Apply(cfg, w, name, op), n, i)
    {
      ApplyKeepsStripe(cfg, w, strict, name, op, n, i);
    }
    forall c, n, m | c in w && m in Listing(Apply(cfg, w, name, op), c, n)
      ensures ListedOk(cfg, Apply(cfg, w, name, op), strict, c, n, m)
    {
      ApplyKeepsListed(cfg, w, strict, name, op, c, n, m);
    }
  }

  // ---------- runs ----------

  ghost predicate AllLegal(cfg: Config, strict: bool, ops: seq<StripeOp>)
  {
    forall i :: 0 <= i < |ops| ==> LegalOp(cfg, strict, ops[i])
  }

  // Keys that can belong to the content of a file.
  ghost predicate FileKey(name: string, key: string)
  {
    key == Keys.StripesKey(name) || exists id :: key == Keys.StripeKey(name, id)
  }

  ghost predicate OnlyFile(w: World, w': World, name: string)
  {
    w'.Keys == w.Keys && forall c, k :: c in w && !FileKey(name, k) ==> SameAt(w, w', c, k)
  }

  lemma SameClients(w: World, w': World, name: string)
    requires OnlyFile(w, w', name)
    ensures w'.Keys == w.Keys
  {
  }

  lemma {:induction false} RunKeeps(cfg: Config, w: World, strict: bool, name: string, ops: seq<StripeOp>)
    requires Inv(cfg, w, strict) && AllLegal(cfg, strict, ops)
    ensures Inv(cfg, Run(cfg, w, name, ops), strict)
    ensures OnlyFile(w, Run(cfg, w, name, ops), name)
    decreases |ops|
  {
    if ops != [] {
      var w1 := Apply(cfg, w, name, ops[0]);
      ApplyKeepsInv(cfg, w, strict, name, ops[0]);
      ApplyFrame(cfg, w, name, ops[0]);
      RunKeeps(cfg, w1, strict, name, ops[1..]);
      var w2 := Run(cfg, w1, name, ops[1..]);
      assert w2 == Run(cfg, w, name, ops);
      forall c, k | c in w && !FileKey(name, k)
        ensures SameAt(w, w2, c, k)
      {
        assert SameAt(w, w1, c, k) && SameAt(w1, w2, c, k);
      }
    }
  }

  lemma NotFileKeys(name: string, other: string, id: int)
    ensures !FileKey(name, Keys.ModeKey(other)) && !FileKey(name, Keys.ChildrenKey(other))
    ensures other != name ==> !FileKey(name, Keys.StripesKey(other)) && !FileKey(name, Keys.StripeKey(other, id))
  {
    forall i
      ensures Keys.StripeKey(name, i) != Keys.ModeKey(other) && Keys.StripeKey(name, i) != Keys.ChildrenKey(other)
      ensures Keys.StripeKey(name, i) != Keys.StripesKey(other)
      ensures other != name ==> Keys.StripeKey(name, i) != Keys.StripeKey(other, id)
    {
      Keys.KeyFamiliesDisjoint(name, i, other);
      Keys.StripeKeyInjective(name, i, other, id);
    }
    Keys.KeyFamiliesDisjoint(name, 0, other);
    Keys.KeyFamiliesDisjoint(other, id, name);
    Keys.StripesKeyInjective(name, other);
  }

  // Other files and all inode metadata survive whatever a call does to its own file.
  lemma OthersUnchanged(cfg: Config, w: World, w': World, name: string, other: string)
    requires Wired(cfg, w) && Wired(cfg, w') && OnlyFile(w, w', name)
    ensures forall c :: c in w ==> SameAt(w, w', c, Keys.ModeKey(other)) && SameAt(w, w', c, Keys.ChildrenKey(other))
    ensures other != name ==>
      && (forall id :: Stripe(cfg, w', other, id) == Stripe(cfg, w, other, id))
      && (forall p :: ByteAt(cfg, w', other, p) == ByteAt(cfg, w, other, p))
      && (forall c :: c in w ==> Listing(w', c, other) == Listing(w, c, other))
  {
    NotFileKeys(name, other, 0);
    if other != name {
      forall c | c in w
        ensures Listing(w', c, other) == Listing(w, c, other)
      {
        assert SameAt(w, w', c, Keys.StripesKey(other));
      }
      forall id
        ensures Stripe(cfg, w', other, id) == Stripe(cfg, w, other, id)
      {
        NotFileKeys(name, other, id);
        assert SameAt(w, w', OwnerOf(cfg, other, id), Keys.StripeKey(other, id));
      }
    }
  }

  // ---------- size ----------

  // Every stripe id any instance lists for the file.
  ghost function ListedIds(w: World, name: string): set<int>
  {
    set c, m | c in w && m in Listing(w, c, name) :: Keys.Atoi(m)
  }

  ghost function LastStripe(w: World, name: string): (last: int)
    ensures ListedIds(w, name) == {} ==> last == -1
    ensures ListedIds(w, name) != {} ==> last in ListedIds(w, name)
    ensures forall id :: id in ListedIds(w, name) ==> id <= last
  {
    MaxOf(ListedIds(w, name))
  }

  // What GetSize computes: ilast * stripeSize + strlen.
  ghost function Size(cfg: Config, w: World, name: string): nat
  {
    var last := LastStripe(w, name);
    if last < 0 then 0 else Start(cfg.stripeSize, last) + |Stripe(cfg, w, name, last)|
  }

  lemma LastStripeMeans(cfg: Config, w: World, strict: bool, name: string)
    requires Inv(cfg, w, strict)
    ensures LastStripe(w, name) >= -1
    ensures forall id :: id > LastStripe(w, name) ==> Stripe(cfg, w, name, id) == []
    ensures LastStripe(w, name) >= 0 && (strict || LastStripe(w, name) > 0) ==>
      Stripe(cfg, w, name, LastStripe(w, name)) != []
  {
    var last := LastStripe(w, name);
    var ids := ListedIds(w, name);
    forall id | Stripe(cfg, w, name, id) != []
      ensures id <= last
    {
      assert StripeOk(cfg, w, name, id);
      Keys.AtoiItoa(id);
      assert id in ids;
    }
    if last in ids {
      var c, m :| c in w && m in Listing(w, c, name) && Keys.Atoi(m) == last;
      assert ListedOk(cfg, w, strict, c, name, m);
    }
  }

  lemma SizeIsAbove(cfg: Config, w: World, name: string, p: nat)
    requires cfg.stripeSize >= 1 && ByteAt(cfg, w, name, p) != None
    requires StripeOf(cfg.stripeSize, p) <= LastStripe(w, name)
    ensures p < Size(cfg, w, name)
  {
    hide Stripe, LastStripe, StripeOf, OffsetIn;
    var S := cfg.stripeSize;
    var last := LastStripe(w, name);
    Split(S, p);
    var id := StripeOf(S, p);
    if id < last {
      StartMonotone(S, id, last);
    }
  }

  lemma LastByte(cfg: Config, w: World, name: string)
    requires cfg.stripeSize >= 1 && LastStripe(w, name) >= 0
    requires 0 < |Stripe(cfg, w, name, LastStripe(w, name))| <= cfg.stripeSize
    ensures ByteAt(cfg, w, name, Size(cfg, w, name) - 1) != None
  {
    hide Stripe, LastStripe, StripeOf, OffsetIn;
    var last := LastStripe(w, name);
    Join(cfg.stripeSize, last, |Stripe(cfg, w, name, last)| - 1);
  }

  // GetSize is one more than the largest position that holds a byte, also in files with holes.
  lemma SizeMeans(cfg: Config, w: World, strict: bool, name: string)
    requires Inv(cfg, w, strict)
    ensures forall p: nat :: p >= Size(cfg, w, name) ==> ByteAt(cfg, w, name, p) == None
    ensures Size(cfg, w, name) > 0 ==> ByteAt(cfg, w, name, Size(cfg, w, name) - 1) != None
  {
    LastStripeMeans(cfg, w, strict, name);
    var last := LastStripe(w, name);
    assert StripeOk(cfg, w, name, last);
    if last >= 0 && Stripe(cfg, w, name, last) != [] {
      LastByte(cfg, w, name);
    }
    forall p: nat | ByteAt(cfg, w, name, p) != None
      ensures p < Size(cfg, w, name)
    {
      assert Stripe(cfg, w, name, StripeOf(cfg.stripeSize, p)) != [];
      SizeIsAbove(cfg, w, name, p);
    }
  }
}
