// One stripe's share of a data store call, as an atomic step on the instance that owns the stripe,
// and the proof that the goroutines of a call may be scheduled in any order.
module Store {
  import opened Basics
  import opened Redis
  import I = Interleaving

  // The stripe size and the client that the ring picks for a key.
  datatype Config = Config(stripeSize: nat, owner: string -> string)

  ghost predicate Wired(cfg: Config, w: World)
  {
    cfg.stripeSize >= 1 && forall k :: cfg.owner(k) in w
  }

  function OwnerOf(cfg: Config, name: string, id: int): string
  {
    cfg.owner(Keys.StripeKey(name, id))
  }

  // Content of a stripe; a missing key reads as the empty string.
  function Stripe(cfg: Config, w: World, name: string, id: int): seq<byte>
  {
    var c := OwnerOf(cfg, name, id);
    if c in w then StringAt(w[c], Keys.StripeKey(name, id)) else []
  }

  // The stripes that client c's instance lists for a file.
  function Listing(w: World, c: string, name: string): set<string>
  {
    if c in w then Members(w[c], Keys.StripesKey(name)) else {}
  }

  // What one goroutine sends: a MULTI/EXEC block or a script, which Redis runs as one step.
  datatype StripeOp =
    | Write(id: int, off: nat, data: seq<byte>)
    | Erase(id: int)
    | Trim(id: int, size: nat)

  // list is the file's set of stripe ids, key the stripe's string, member the printed stripe id.
  function OnKeys(S: nat, db: Instance, list: string, key: string, member: string, op: StripeOp): Instance
  {
    match op
    case Write(_, off, data) =>
      var listed := SAdd(db, list, member);
      if off == 0 && |data| == S then Set(listed, key, data) else SetRange(listed, key, off, data)
    case Erase(_) =>
      Unlink(SRem(db, list, member), key)
    case Trim(_, size) =>
      Set(db, key, if size == 0 then [] else Range(StringAt(db, key), 0, size - 1))
  }

  function OnInstance(cfg: Config, db: Instance, name: string, op: StripeOp): Instance
  {
    OnKeys(cfg.stripeSize, db, Keys.StripesKey(name), Keys.StripeKey(name, op.id), Keys.Itoa(op.id), op)
  }

  function Apply(cfg: Config, w: World, name: string, op: StripeOp): (w': World)
    ensures w'.Keys == w.Keys
  {
    var c := OwnerOf(cfg, name, op.id);
    if c in w then w[c := OnInstance(cfg, w[c], name, op)] else w
  }

  function Stepper(cfg: Config, name: string): (World, StripeOp) -> World
  {
    (w, op) => Apply(cfg, w, name, op)
  }

  function Run(cfg: Config, w: World, name: string, ops: seq<StripeOp>): World
  {
    I.Run(Stepper(cfg, name), w, ops)
  }

  // ---------- effect of one step ----------

  function NewStripe(cfg: Config, old_: seq<byte>, op: StripeOp): seq<byte>
  {
    match op
    case Write(_, off, data) =>
      if off == 0 && |data| == cfg.stripeSize then data else Overwrite(old_, off, data)
    case Erase(_) => []
    case Trim(_, size) => if size == 0 then [] else Range(old_, 0, size - 1)
  }

  function NewListing(listed: set<string>, op: StripeOp): set<string>
  {
    match op
    case Write(id, _, _) => listed + {Keys.Itoa(id)}
    case Erase(id) => listed - {Keys.Itoa(id)}
    case Trim(_, _) => listed
  }

  lemma OnKeysEffect(S: nat, db: Instance, list: string, key: string, member: string, op: StripeOp)
    requires list != key && member == Keys.Itoa(op.id)
    ensures var r := OnKeys(S, db, list, key, member, op);
      && StringAt(r, key) == NewStripe(Config(S, _ => ""), StringAt(db, key), op)
      && Members(r, list) == NewListing(Members(db, list), op)
      && (forall k :: k != key ==> StringAt(r, k) == StringAt(db, k) || k == list)
      && (forall k :: k != list && k != key ==> Members(r, k) == Members(db, k))
  {
    hide Overwrite, Range, Keys.Itoa;
  }

  // A step changes its own stripe, the listing of its file on its own instance, and nothing else.
  lemma ApplyEffect(cfg: Config, w: World, name: string, op: StripeOp)
    requires Wired(cfg, w)
    ensures var w' := Apply(cfg, w, name, op);
      && Stripe(cfg, w', name, op.id) == NewStripe(cfg, Stripe(cfg, w, name, op.id), op)
      && (forall n, i :: (n, i) != (name, op.id) ==> Stripe(cfg, w', n, i) == Stripe(cfg, w, n, i))
      && (forall c, n :: c in w ==>
        Listing(w', c, n) ==
          if c == OwnerOf(cfg, name, op.id) && n == name then NewListing(Listing(w, c, n), op)
          else Listing(w, c, n))
  {
    hide OnKeys, Keys.StripeKey, Keys.StripesKey, Keys.Itoa, StringAt, Members, Overwrite, Range;
    var w' := Apply(cfg, w, name, op);
    var c0 := OwnerOf(cfg, name, op.id);
    Keys.KeyFamiliesDisjoint(name, op.id, name);
    OnKeysEffect(cfg.stripeSize, w[c0], Keys.StripesKey(name), Keys.StripeKey(name, op.id), Keys.Itoa(op.id), op);
    forall n, i | (n, i) != (name, op.id)
      ensures Stripe(cfg, w', n, i) == Stripe(cfg, w, n, i)
    {
      Keys.StripeKeyInjective(n, i, name, op.id);
      Keys.KeyFamiliesDisjoint(n, i, name);
    }
    forall c, n | c in w
      ensures Listing(w', c, n) ==
        if c == c0 && n == name then NewListing(Listing(w, c, n), op) else Listing(w, c, n)
    {
      Keys.StripesKeyInjective(n, name);
      Keys.KeyFamiliesDisjoint(name, op.id, n);
    }
  }

  lemma ApplyStripe(cfg: Config, w: World, name: string, op: StripeOp, id: int)
    requires Wired(cfg, w)
    ensures Stripe(cfg, Apply(cfg, w, name, op), name, id) ==
      if id == op.id then NewStripe(cfg, Stripe(cfg, w, name, id), op) else Stripe(cfg, w, name, id)
  {
    hide Apply, Stripe, NewStripe;
    ApplyEffect(cfg, w, name, op);
  }

  // No other key of any instance is touched: other files and all inode metadata stay as they were.
  predicate Touches(name: string, op: StripeOp, key: string)
  {
    key == Keys.StripeKey(name, op.id) || key == Keys.StripesKey(name)
  }

  lemma ApplyFrame(cfg: Config, w: World, name: string, op: StripeOp)
    requires Wired(cfg, w)
    ensures forall c, k :: c in w && !Touches(name, op, k) ==>
      SameAt(w, Apply(cfg, w, name, op), c, k)
  {
  }

  predicate SameAt(w: World, w': World, c: string, key: string)
    requires c in w
  {
    && c in w'
    && StringAt(w[c], key) == StringAt(w'[c], key)
    && Members(w[c], key) == Members(w'[c], key)
    && Exists(w[c], key) == Exists(w'[c], key)
  }

  lemma ApplyTyped(cfg: Config, w: World, name: string, op: StripeOp)
    requires Wired(cfg, w) && WellTyped(w)
    ensures WellTyped(Apply(cfg, w, name, op))
  {
    hide OnKeys, IsSetKey, TypedInstance, Keys.StripeKey, Keys.StripesKey, Keys.Itoa;
    FileKeysTyped(name, op.id);
    OnKeysTyped(cfg.stripeSize, w[OwnerOf(cfg, name, op.id)], Keys.StripesKey(name), Keys.StripeKey(name, op.id),
                Keys.Itoa(op.id), op);
  }

  lemma FileKeysTyped(name: string, id: int)
    ensures IsSetKey(Keys.StripesKey(name)) && !IsSetKey(Keys.StripeKey(name, id))
  {
    hide Keys.StripeKey, Keys.StripesKey;
    Keys.TailsOfKeys(name, id);
    assert Keys.Itoa(id)[0] == '-' || '0' <= Keys.Itoa(id)[0] <= '9';
    assert "stripes"[0] == 's' && "children"[0] == 'c';
  }

  lemma OnKeysTyped(S: nat, db: Instance, list: string, key: string, member: string, op: StripeOp)
    requires TypedInstance(db) && IsSetKey(list) && !IsSetKey(key)
    ensures TypedInstance(OnKeys(S, db, list, key, member, op))
  {
    hide IsSetKey, Overwrite, Range;
    assert member in Members(db, list) + {member};
  }

  // ---------- any schedule gives the same store ----------

  predicate AllZero(data: seq<byte>) { forall i :: 0 <= i < |data| ==> data[i] == 0 }

  // Steps of one call either concern different stripes, or write nothing, or pad with zeros.
  predicate Independent(cfg: Config, a: StripeOp, b: StripeOp)
  {
    || a.id != b.id
    || (a.Write? && b.Write? &&
        (a.data == [] || b.data == [] ||
         (AllZero(a.data) && AllZero(b.data) && |a.data| != cfg.stripeSize && |b.data| != cfg.stripeSize)))
  }

  ghost predicate PairwiseIndependent(cfg: Config, ops: seq<StripeOp>)
  {
    forall i, j :: 0 <= i < j < |ops| ==> Independent(cfg, ops[i], ops[j])
  }

  lemma OverwriteZerosCommute(s: seq<byte>, o1: nat, d1: seq<byte>, o2: nat, d2: seq<byte>)
    requires AllZero(d1) && AllZero(d2)
    ensures Overwrite(Overwrite(s, o1, d1), o2, d2) == Overwrite(Overwrite(s, o2, d2), o1, d1)
  {
  }

  // One command's effect on the map of strings, or of sets, at one key.
  datatype Edit<V> = Keep | Put(value: V) | Drop

  function EditAt<V>(m: map<string, V>, key: string, e: Edit<V>): map<string, V>
  {
    match e
    case Keep => m
    case Put(v) => m[key := v]
    case Drop => m - {key}
  }

  lemma EditsCommute<V>(m: map<string, V>, k1: string, e1: Edit<V>, k2: string, e2: Edit<V>)
    requires k1 != k2
    ensures EditAt(EditAt(m, k1, e1), k2, e2) == EditAt(EditAt(m, k2, e2), k1, e1)
  {
  }

  function StringEdit(S: nat, old_: seq<byte>, op: StripeOp): Edit<seq<byte>>
  {
    match op
    case Write(_, off, data) =>
      if off == 0 && |data| == S then Put(data)
      else if data == [] then Keep
      else Put(Overwrite(old_, off, data))
    case Erase(_) => Drop
    case Trim(_, size) => Put(if size == 0 then [] else Range(old_, 0, size - 1))
  }

  function SetEdit(old_: set<string>, member: string, op: StripeOp): Edit<set<string>>
  {
    match op
    case Write(_, _, _) => Put(old_ + {member})
    case Erase(_) => if old_ - {member} == {} then Drop else Put(old_ - {member})
    case Trim(_, _) => Keep
  }

  lemma OnKeysEdits(S: nat, db: Instance, list: string, key: string, member: string, op: StripeOp)
    requires list != key
    ensures var r := OnKeys(S, db, list, key, member, op);
      && r.strings == EditAt(db.strings, key, StringEdit(S, StringAt(db, key), op))
      && r.sets == SetsAfter(db.sets, list, key, member, op)
  {
  }

  lemma StringsCommute(S: nat, m: map<string, seq<byte>>, k: string, a: StripeOp, b: StripeOp)
    requires S >= 1 && a.id == b.id && Independent(Config(S, _ => ""), a, b)
    ensures var old_ := if k in m then m[k] else [];
      var ma := EditAt(m, k, StringEdit(S, old_, a));
      var mb := EditAt(m, k, StringEdit(S, old_, b));
      EditAt(ma, k, StringEdit(S, if k in ma then ma[k] else [], b)) ==
      EditAt(mb, k, StringEdit(S, if k in mb then mb[k] else [], a))
  {
    hide Overwrite;
    if a.data != [] && b.data != [] {
      OverwriteZerosCommute(if k in m then m[k] else [], a.off, a.data, b.off, b.data);
    }
  }

  function Look<V>(m: map<string, V>, k: string): Option<V>
  {
    if k in m then Some(m[k]) else None
  }

  lemma SameLooks<V>(m: map<string, V>, m': map<string, V>)
    requires forall k :: Look(m, k) == Look(m', k)
    ensures m == m'
  {
    forall k
      ensures k in m <==> k in m'
      ensures k in m ==> m[k] == m'[k]
    {
      assert Look(m, k) == Look(m', k);
    }
  }

  function MembersIn(sets: map<string, set<string>>, list: string): set<string>
  {
    if list in sets then sets[list] else {}
  }

  function SetsAfter(sets: map<string, set<string>>, list: string, key: string, member: string, op: StripeOp)
    : map<string, set<string>>
  {
    EditAt(EditAt(sets, list, SetEdit(MembersIn(sets, list), member, op)), key, if op.Erase? then Drop else Keep)
  }

  lemma LookSetsAfter(sets: map<string, set<string>>, list: string, key: string, member: string, op: StripeOp,
                      k: string)
    requires key != list
    ensures Look(SetsAfter(sets, list, key, member, op), k) ==
      if op.Trim? then Look(sets, k)
      else if k == list then
        match SetEdit(MembersIn(sets, list), member, op) { case Put(v) => Some(v) case _ => None }
      else if op.Erase? && k == key then None
      else Look(sets, k)
  {
  }

  lemma SetsCommute(sets: map<string, set<string>>, list: string, ka: string, ma: string, kb: string, mb: string,
                    a: StripeOp, b: StripeOp)
    requires ka != list && kb != list && (ma == mb ==> a.Write? && b.Write?)
    ensures SetsAfter(SetsAfter(sets, list, ka, ma, a), list, kb, mb, b) ==
            SetsAfter(SetsAfter(sets, list, kb, mb, b), list, ka, ma, a)
  {
    var sa, sb := SetsAfter(sets, list, ka, ma, a), SetsAfter(sets, list, kb, mb, b);
    var ab, ba := SetsAfter(sa, list, kb, mb, b), SetsAfter(sb, list, ka, ma, a);
    var old_ := MembersIn(sets, list);
    assert (old_ + {ma}) + {mb} == (old_ + {mb}) + {ma};
    assert (old_ - {ma}) - {mb} == (old_ - {mb}) - {ma};
    assert ma != mb ==> (old_ + {ma}) - {mb} == (old_ - {mb}) + {ma};
    assert ma != mb ==> (old_ - {ma}) + {mb} == (old_ + {mb}) - {ma};
    LookSetsAfter(sets, list, ka, ma, a, list);
    LookSetsAfter(sets, list, kb, mb, b, list);
    forall k
      ensures Look(ab, k) == Look(ba, k)
    {
      LookSetsAfter(sets, list, ka, ma, a, k);
      LookSetsAfter(sets, list, kb, mb, b, k);
      LookSetsAfter(sa, list, kb, mb, b, k);
      LookSetsAfter(sb, list, ka, ma, a, k);
    }
    SameLooks(ab, ba);
  }

  lemma CommuteOnInstance(cfg: Config, db: Instance, name: string, a: StripeOp, b: StripeOp)
    requires cfg.stripeSize >= 1 && Independent(cfg, a, b)
    ensures OnInstance(cfg, OnInstance(cfg, db, name, a), name, b) ==
            OnInstance(cfg, OnInstance(cfg, db, name, b), name, a)
  {
    hide OnKeys, StringEdit, SetEdit, SetsAfter, Keys.StripeKey, Keys.StripesKey, Keys.Itoa;
    var S, list := cfg.stripeSize, Keys.StripesKey(name);
    var ka, ma := Keys.StripeKey(name, a.id), Keys.Itoa(a.id);
    var kb, mb := Keys.StripeKey(name, b.id), Keys.Itoa(b.id);
    Keys.StripeKeyInjective(name, a.id, name, b.id);
    Keys.KeyFamiliesDisjoint(name, a.id, name);
    Keys.KeyFamiliesDisjoint(name, b.id, name);
    Keys.AtoiItoa(a.id);
    Keys.AtoiItoa(b.id);
    var da, db' := OnKeys(S, db, list, ka, ma, a), OnKeys(S, db, list, kb, mb, b);
    OnKeysEdits(S, db, list, ka, ma, a);
    OnKeysEdits(S, db, list, kb, mb, b);
    OnKeysEdits(S, da, list, kb, mb, b);
    OnKeysEdits(S, db', list, ka, ma, a);
    if a.id == b.id {
      StringsCommute(S, db.strings, ka, a, b);
    } else {
      EditsCommute(db.strings, ka, StringEdit(S, StringAt(db, ka), a), kb, StringEdit(S, StringAt(db, kb), b));
    }
    SetsCommute(db.sets, list, ka, ma, kb, mb, a, b);
  }

  lemma ApplyTwice(cfg: Config, w: World, name: string, a: StripeOp, b: StripeOp)
    requires cfg.stripeSize >= 1 && Independent(cfg, a, b)
    ensures Apply(cfg, Apply(cfg, w, name, a), name, b) == Apply(cfg, Apply(cfg, w, name, b), name, a)
  {
    hide OnInstance, Keys.StripeKey;
    var ca, cb := OwnerOf(cfg, name, a.id), OwnerOf(cfg, name, b.id);
    if ca == cb && ca in w {
      CommuteOnInstance(cfg, w[ca], name, a, b);
    }
  }

  lemma StepsCommute(cfg: Config, name: string, a: StripeOp, b: StripeOp)
    requires cfg.stripeSize >= 1 && Independent(cfg, a, b)
    ensures I.Commute(Stepper(cfg, name), a, b)
  {
    var step := Stepper(cfg, name);
    forall w: World
      ensures step(step(w, a), b) == step(step(w, b), a)
    {
      ApplyTwice(cfg, w, name, a, b);
    }
  }

  // Whatever order the goroutines of a call run in, the store ends up the same.
  lemma AnySchedule(cfg: Config, w: World, name: string, ops: seq<StripeOp>, order: seq<StripeOp>)
    requires cfg.stripeSize >= 1 && PairwiseIndependent(cfg, ops)
    requires multiset(order) == multiset(ops)
    ensures Run(cfg, w, name, order) == Run(cfg, w, name, ops)
  {
    forall i, j | 0 <= i < j < |ops|
      ensures I.Commute(Stepper(cfg, name), ops[i], ops[j])
    {
      StepsCommute(cfg, name, ops[i], ops[j]);
    }
    I.AnyOrder(Stepper(cfg, name), w, ops, order);
  }
}
