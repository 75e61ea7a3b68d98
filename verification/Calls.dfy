// WriteAt, Remove and Resize as the runs of stripe steps their goroutines perform, and what they do to the file.
module Calls {
  import opened Basics
  import opened Redis
  import opened Striping
  import opened Store
  import opened Content

  // ---------- WriteAt ----------

  // The slice stripeLayout returns: the layout, and extra zero-valued entries once it had to grow.
  function Slots(S: nat, off: nat, n: nat, extra: nat): seq<Piece>
    requires S >= 1
  {
    Layout(S, off, n, 0) + seq(extra, _ => NoPiece)
  }

  function PieceOp(data: seq<byte>, p: Piece): StripeOp
  {
    Write(p.id, p.off, if p.pos + p.len <= |data| then data[p.pos..p.pos + p.len] else [])
  }

  function PieceOps(data: seq<byte>, ps: seq<Piece>): (ops: seq<StripeOp>)
    ensures |ops| == |ps| && forall i :: 0 <= i < |ps| ==> ops[i] == PieceOp(data, ps[i])
  {
    seq(|ps|, i requires 0 <= i < |ps| => PieceOp(data, ps[i]))
  }

  function WriteAtSpec(cfg: Config, w: World, name: string, off: nat, data: seq<byte>, extra: nat): World
    requires cfg.stripeSize >= 1
  {
    Run(cfg, w, name, PieceOps(data, Slots(cfg.stripeSize, off, |data|, extra)))
  }

  function WriteAtPosition(S: nat, base: nat, d: seq<byte>): StripeOp
    requires S >= 1
  {
    Write(StripeOf(S, base), OffsetIn(S, base), d)
  }

  function Patched(S: nat, old_: Option<byte>, base: nat, d: seq<byte>, p: nat): Option<byte>
    requires S >= 1
  {
    if base <= p < base + |d| then Some(d[p - base])
    else if old_ != None then old_
    else if StripeOf(S, p) == StripeOf(S, base) && p < base then Some(0)
    else None
  }

  lemma OverwriteAt(s: seq<byte>, o: nat, d: seq<byte>, j: nat)
    requires d != []
    ensures At(Overwrite(s, o, d), j) ==
      if o <= j < o + |d| then Some(d[j - o]) else if j < |s| then Some(s[j]) else if j < o then Some(0) else None
  {
  }

  // The byte at p once d has been written from position base on, inside one stripe.
  lemma ByteAfterWrite(cfg: Config, w: World, name: string, base: nat, d: seq<byte>, p: nat)
    requires Wired(cfg, w) && d != [] && OffsetIn(cfg.stripeSize, base) + |d| <= cfg.stripeSize
    requires |Stripe(cfg, w, name, StripeOf(cfg.stripeSize, base))| <= cfg.stripeSize
    ensures var S := cfg.stripeSize;
      ByteAt(cfg, Apply(cfg, w, name, WriteAtPosition(S, base, d)), name, p) ==
        Patched(S, ByteAt(cfg, w, name, p), base, d, p)
  {
    hide Apply, Stripe, Overwrite, StripeOf, OffsetIn, NewStripe;
    var S := cfg.stripeSize;
    var op := WriteAtPosition(S, base, d);
    var id, j := StripeOf(S, p), OffsetIn(S, p);
    var old_ := Stripe(cfg, w, name, id);
    ApplyStripe(cfg, w, name, op, id);
    SameStripe(S, base, p);
    if id == op.id {
      WriteIsOverwrite(cfg, old_, op);
      OverwriteAt(old_, op.off, d, j);
      assert At(Overwrite(old_, op.off, d), j) == Patched(S, At(old_, j), base, d, p);
    }
  }

  lemma WriteIsOverwrite(cfg: Config, old_: seq<byte>, op: StripeOp)
    requires op.Write? && |old_| <= cfg.stripeSize
    ensures NewStripe(cfg, old_, op) == Overwrite(old_, op.off, op.data)
  {
    if |op.data| == cfg.stripeSize && op.off == 0 {
      WholeStripe(cfg.stripeSize, old_, op.data);
    }
  }

  // SET of a whole stripe is what SETRANGE would have done, because no stripe is longer than S.
  lemma WholeStripe(S: nat, s: seq<byte>, d: seq<byte>)
    requires |s| <= S && |d| == S
    ensures Overwrite(s, 0, d) == d
  {
  }

  // What byte p is, given its old value, once bytes [from, until) of data have been written at off: the data where it
  // goes, else the old byte, else a zero where the stripe of the first written byte had to be padded.
  function Overlay(S: nat, old_: Option<byte>, off: nat, data: seq<byte>, from: nat, until: nat, p: nat): Option<byte>
    requires S >= 1 && until <= |data|
  {
    if off + from <= p < off + until then Some(data[p - off])
    else if old_ != None then old_
    else if from < until && StripeOf(S, p) == StripeOf(S, off + from) && p < off + from then Some(0)
    else None
  }

  ghost predicate StripesFit(cfg: Config, w: World, name: string)
  {
    Wired(cfg, w) && forall id :: |Stripe(cfg, w, name, id)| <= cfg.stripeSize
  }

  lemma InvFits(cfg: Config, w: World, strict: bool, name: string)
    requires Inv(cfg, w, strict)
    ensures StripesFit(cfg, w, name)
  {
    forall id
      ensures |Stripe(cfg, w, name, id)| <= cfg.stripeSize
    {
      assert StripeOk(cfg, w, name, id);
    }
  }

  lemma StepFits(cfg: Config, w: World, name: string, op: StripeOp)
    requires StripesFit(cfg, w, name) && LegalOp(cfg, false, op)
    ensures StripesFit(cfg, Apply(cfg, w, name, op), name)
  {
    ApplyEffect(cfg, w, name, op);
    NewStripeFits(cfg, false, Stripe(cfg, w, name, op.id), op);
  }

  function FirstOp(S: nat, off: nat, data: seq<byte>, pos: nat): StripeOp
    requires S >= 1 && pos < |data|
  {
    PieceOp(data, Layout(S, off, |data|, pos)[0])
  }

  lemma PieceOpsCons(data: seq<byte>, p: Piece, ps: seq<Piece>)
    ensures PieceOps(data, [p] + ps) == [PieceOp(data, p)] + PieceOps(data, ps)
  {
  }

  lemma FirstOpIs(S: nat, off: nat, data: seq<byte>, pos: nat)
    requires S >= 1 && pos < |data|
    ensures var len := PieceLen(S, off, |data|, pos);
      && FirstOp(S, off, data, pos) == WriteAtPosition(S, off + pos, data[pos..pos + len])
      && PieceOps(data, Layout(S, off, |data|, pos)) ==
         [FirstOp(S, off, data, pos)] + PieceOps(data, Layout(S, off, |data|, pos + len))
  {
    hide StripeOf, OffsetIn, Layout, PieceOps, PieceLen;
    LayoutCons(S, off, |data|, pos);
    var len := PieceLen(S, off, |data|, pos);
    var first := Piece(StripeOf(S, off + pos), OffsetIn(S, off + pos), pos, len);
    PieceOpsCons(data, first, Layout(S, off, |data|, pos + len));
  }

  lemma PatchedIsOverlay(S: nat, old_: Option<byte>, off: nat, data: seq<byte>, pos: nat, until: nat, p: nat)
    requires S >= 1 && pos < until <= |data|
    ensures Patched(S, old_, off + pos, data[pos..until], p) == Overlay(S, old_, off, data, pos, until, p)
  {
  }

  lemma OnePiece(cfg: Config, w: World, name: string, off: nat, data: seq<byte>, pos: nat, p: nat)
    requires Wired(cfg, w) && pos < |data|
    requires |Stripe(cfg, w, name, StripeOf(cfg.stripeSize, off + pos))| <= cfg.stripeSize
    ensures var S := cfg.stripeSize;
      ByteAt(cfg, Apply(cfg, w, name, FirstOp(S, off, data, pos)), name, p) ==
      Overlay(S, ByteAt(cfg, w, name, p), off, data, pos, pos + PieceLen(S, off, |data|, pos), p)
  {
    hide Apply, Stripe, ByteAt;
    var S := cfg.stripeSize;
    var until := pos + PieceLen(S, off, |data|, pos);
    FirstOpIs(S, off, data, pos);
    ByteAfterWrite(cfg, w, name, off + pos, data[pos..until], p);
    PatchedIsOverlay(S, ByteAt(cfg, w, name, p), off, data, pos, until, p);
  }

  lemma OverlayTwice(S: nat, old_: Option<byte>, off: nat, data: seq<byte>, pos: nat, p: nat)
    requires S >= 1 && pos < |data|
    ensures var mid := pos + PieceLen(S, off, |data|, pos);
      mid <= |data| &&
      Overlay(S, Overlay(S, old_, off, data, pos, mid, p), off, data, mid, |data|, p) ==
      Overlay(S, old_, off, data, pos, |data|, p)
  {
    NextStripe(S, off, |data|, pos, p);
  }

  lemma {:induction false} WriteRun(cfg: Config, w: World, name: string, off: nat, data: seq<byte>, pos: nat, p: nat)
    requires StripesFit(cfg, w, name) && pos <= |data|
    ensures ByteAt(cfg, Run(cfg, w, name, PieceOps(data, Layout(cfg.stripeSize, off, |data|, pos))), name, p) ==
            Overlay(cfg.stripeSize, ByteAt(cfg, w, name, p), off, data, pos, |data|, p)
    decreases |data| - pos
  {
    hide Apply, Stripe, ByteAt;
    var S := cfg.stripeSize;
    if pos == |data| {
      assert PieceOps(data, Layout(S, off, |data|, pos)) == [];
    } else {
      var op := FirstOp(S, off, data, pos);
      var pos' := pos + PieceLen(S, off, |data|, pos);
      FirstOpIs(S, off, data, pos);
      assert LegalOp(cfg, false, op);
      OnePiece(cfg, w, name, off, data, pos, p);
      StepFits(cfg, w, name, op);
      var w1 := Apply(cfg, w, name, op);
      var rest := PieceOps(data, Layout(S, off, |data|, pos'));
      RunCons(cfg, w, name, op, rest);
      WriteRun(cfg, w1, name, off, data, pos', p);
      OverlayTwice(S, ByteAt(cfg, w, name, p), off, data, pos, p);
    }
  }

  lemma RunCons(cfg: Config, w: World, name: string, op: StripeOp, ops: seq<StripeOp>)
    ensures Run(cfg, w, name, [op] + ops) == Run(cfg, Apply(cfg, w, name, op), name, ops)
  {
    assert ([op] + ops)[1..] == ops;
  }

  // Nothing below the start of the next piece shares its stripe.
  lemma NextStripe(S: nat, off: nat, n: nat, pos: nat, p: nat)
    requires S >= 1 && pos < n
    ensures var next := pos + PieceLen(S, off, n, pos);
      next < n && p < off + next ==> StripeOf(S, p) != StripeOf(S, off + next)
  {
    NextPiece(S, off, n, pos);
    SameStripe(S, off + pos + PieceLen(S, off, n, pos), p);
  }

  // ---------- the whole of WriteAt ----------

  lemma SlotOps(data: seq<byte>, ps: seq<Piece>, extra: nat)
    ensures PieceOps(data, ps + seq(extra, _ => NoPiece)) ==
            PieceOps(data, ps) + seq(extra, _ => PieceOp(data, NoPiece))
  {
  }

  lemma SlotsLegal(cfg: Config, strict: bool, off: nat, data: seq<byte>, extra: nat)
    requires cfg.stripeSize >= 1 && (strict ==> extra == 0)
    ensures AllLegal(cfg, strict, PieceOps(data, Slots(cfg.stripeSize, off, |data|, extra)))
    ensures PairwiseIndependent(cfg, PieceOps(data, Slots(cfg.stripeSize, off, |data|, extra)))
  {
    hide StripeOf, OffsetIn, Layout, PieceOps, PieceOp, LegalOp, GoodPiece;
    LayoutPieces(cfg.stripeSize, off, |data|, 0);
    var layout := Layout(cfg.stripeSize, off, |data|, 0);
    var ps := Slots(cfg.stripeSize, off, |data|, extra);
    NoPieceLegal(cfg, data);
    forall i | 0 <= i < |ps|
      ensures LegalOp(cfg, strict, PieceOp(data, ps[i]))
    {
      if i < |layout| {
        PieceLegal(cfg, strict, off, data, layout[i]);
      }
    }
    forall i, j | 0 <= i < j < |ps|
      ensures Independent(cfg, PieceOp(data, ps[i]), PieceOp(data, ps[j]))
    {
      if i < |layout| {
        PieceLegal(cfg, strict, off, data, layout[i]);
      }
      if j < |layout| {
        PieceLegal(cfg, strict, off, data, layout[j]);
      }
    }
  }

  lemma PieceLegal(cfg: Config, strict: bool, off: nat, data: seq<byte>, p: Piece)
    requires cfg.stripeSize >= 1 && GoodPiece(cfg.stripeSize, off, |data|, p)
    ensures LegalOp(cfg, strict, PieceOp(data, p)) && PieceOp(data, p).Write? && PieceOp(data, p).id == p.id
  {
    hide StripeOf, OffsetIn;
  }

  lemma NoPieceLegal(cfg: Config, data: seq<byte>)
    ensures LegalOp(cfg, false, PieceOp(data, NoPiece)) && PieceOp(data, NoPiece) == Write(0, 0, [])
  {
  }

  // A zero-valued entry of the layout lists stripe 0 and changes no byte.
  lemma {:induction false} ExtraSlotsSilent(cfg: Config, w: World, name: string, extra: nat, p: nat)
    requires Wired(cfg, w)
    ensures ByteAt(cfg, Run(cfg, w, name, seq(extra, _ => Write(0, 0, []))), name, p) == ByteAt(cfg, w, name, p)
    decreases extra
  {
    hide Apply, Stripe, StripeOf, OffsetIn;
    if extra > 0 {
      var op := Write(0, 0, []);
      assert seq(extra, _ => op) == [op] + seq(extra - 1, _ => op);
      RunCons(cfg, w, name, op, seq(extra - 1, _ => op));
      ApplyStripe(cfg, w, name, op, StripeOf(cfg.stripeSize, p));
      ExtraSlotsSilent(cfg, Apply(cfg, w, name, op), name, extra - 1, p);
    }
  }

  lemma {:induction false} RunFits(cfg: Config, w: World, name: string, ops: seq<StripeOp>)
    requires StripesFit(cfg, w, name) && AllLegal(cfg, false, ops)
    ensures StripesFit(cfg, Run(cfg, w, name, ops), name)
    decreases |ops|
  {
    hide Apply, Stripe;
    if ops != [] {
      StepFits(cfg, w, name, ops[0]);
      RunFits(cfg, Apply(cfg, w, name, ops[0]), name, ops[1..]);
    }
  }

  // w' is w with data written into the file at off.
  ghost predicate Overlaid(cfg: Config, w: World, w': World, name: string, off: nat, data: seq<byte>)
    requires cfg.stripeSize >= 1
  {
    forall p: nat ::
      ByteAt(cfg, w', name, p) == Overlay(cfg.stripeSize, ByteAt(cfg, w, name, p), off, data, 0, |data|, p)
  }

  // WriteAt writes data at off, pads the first stripe with zeros, and touches nothing else of the file.
  lemma WriteAtBytes(cfg: Config, w: World, name: string, off: nat, data: seq<byte>, extra: nat, p: nat)
    requires StripesFit(cfg, w, name)
    ensures ByteAt(cfg, WriteAtSpec(cfg, w, name, off, data, extra), name, p) ==
            Overlay(cfg.stripeSize, ByteAt(cfg, w, name, p), off, data, 0, |data|, p)
  {
    hide Apply, Stripe, StripeOf, OffsetIn, ByteAt;
    var S := cfg.stripeSize;
    var ops := PieceOps(data, Layout(S, off, |data|, 0));
    SlotOps(data, Layout(S, off, |data|, 0), extra);
    assert seq(extra, _ => PieceOp(data, NoPiece)) == seq(extra, _ => Write(0, 0, []));
    RunAppend(cfg, w, name, ops, seq(extra, _ => Write(0, 0, [])));
    WriteRun(cfg, w, name, off, data, 0, p);
    SlotsLegal(cfg, true, off, data, 0);
    assert Slots(S, off, |data|, 0) == Layout(S, off, |data|, 0);
    LegalWeaken(cfg, ops);
    RunFits(cfg, w, name, ops);
    ExtraSlotsSilent(cfg, Run(cfg, w, name, ops), name, extra, p);
  }

  lemma LegalWeaken(cfg: Config, ops: seq<StripeOp>)
    requires AllLegal(cfg, true, ops)
    ensures AllLegal(cfg, false, ops)
  {
    forall i | 0 <= i < |ops|
      ensures LegalOp(cfg, false, ops[i])
    {
      assert LegalOp(cfg, true, ops[i]);
    }
  }

  lemma RunAppend(cfg: Config, w: World, name: string, a: seq<StripeOp>, b: seq<StripeOp>)
    ensures Run(cfg, w, name, a + b) == Run(cfg, Run(cfg, w, name, a), name, b)
  {
    I.RunAppend(Stepper(cfg, name), w, a, b);
  }

  // The invariant survives, and so does everything that is not this file.
  lemma WriteAtKeeps(cfg: Config, w: World, strict: bool, name: string, off: nat, data: seq<byte>, extra: nat)
    requires Inv(cfg, w, strict) && (strict ==> extra == 0)
    ensures Inv(cfg, WriteAtSpec(cfg, w, name, off, data, extra), strict)
    ensures OnlyFile(w, WriteAtSpec(cfg, w, name, off, data, extra), name)
  {
    hide Apply, Stripe;
    SlotsLegal(cfg, strict, off, data, extra);
    RunKeeps(cfg, w, strict, name, PieceOps(data, Slots(cfg.stripeSize, off, |data|, extra)));
  }

  // ---------- Remove ----------

  function EraseOps(from: int, upto: int): seq<StripeOp>
  {
    if from > upto then [] else seq(upto - from + 1, i => Erase(from + i))
  }

  ghost function RemoveSpec(cfg: Config, w: World, name: string): World
  {
    Run(cfg, w, name, EraseOps(0, LastStripe(w, name)))
  }

  lemma {:induction false} EraseRun(cfg: Config, w: World, name: string, from: int, upto: int, id: int)
    requires Wired(cfg, w)
    ensures Wired(cfg, Run(cfg, w, name, EraseOps(from, upto)))
    ensures Stripe(cfg, Run(cfg, w, name, EraseOps(from, upto)), name, id) ==
      (if from <= id <= upto then [] else Stripe(cfg, w, name, id))
    decreases upto - from + 1
  {
    hide Apply, Stripe;
    if from <= upto {
      var op := Erase(from);
      assert EraseOps(from, upto) == [op] + EraseOps(from + 1, upto);
      RunCons(cfg, w, name, op, EraseOps(from + 1, upto));
      ApplyStripe(cfg, w, name, op, id);
      EraseRun(cfg, Apply(cfg, w, name, op), name, from + 1, upto, id);
    }
  }

  // Member m of client c's list names a stripe of the range that the client owns.
  ghost predicate ErasedMember(cfg: Config, name: string, from: int, upto: int, c: string, m: string)
  {
    exists id :: from <= id <= upto && c == OwnerOf(cfg, name, id) && m == Keys.Itoa(id)
  }

  lemma {:induction false} EraseListing(cfg: Config, w: World, name: string, from: int, upto: int,
                                        c: string, m: string)
    requires Wired(cfg, w) && c in w
    ensures m in Listing(Run(cfg, w, name, EraseOps(from, upto)), c, name) <==>
      m in Listing(w, c, name) && !ErasedMember(cfg, name, from, upto, c, m)
    decreases upto - from + 1
  {
    hide Apply, Stripe, OwnerOf, Listing, Keys.Itoa;
    if from <= upto {
      var op := Erase(from);
      assert EraseOps(from, upto) == [op] + EraseOps(from + 1, upto);
      RunCons(cfg, w, name, op, EraseOps(from + 1, upto));
      ApplyEffect(cfg, w, name, op);
      EraseListing(cfg, Apply(cfg, w, name, op), name, from + 1, upto, c, m);
      FirstMember(cfg, name, from, upto, c, m);
    }
  }

  lemma FirstMember(cfg: Config, name: string, from: int, upto: int, c: string, m: string)
    requires from <= upto
    ensures ErasedMember(cfg, name, from, upto, c, m) <==>
      (c == OwnerOf(cfg, name, from) && m == Keys.Itoa(from)) || ErasedMember(cfg, name, from + 1, upto, c, m)
  {
    hide OwnerOf, Keys.Itoa;
    if ErasedMember(cfg, name, from, upto, c, m) {
      var id :| from <= id <= upto && c == OwnerOf(cfg, name, id) && m == Keys.Itoa(id);
      assert id != from ==> ErasedMember(cfg, name, from + 1, upto, c, m);
    }
  }

  lemma EraseLegal(cfg: Config, strict: bool, from: int, upto: int)
    ensures AllLegal(cfg, strict, EraseOps(from, upto)) && PairwiseIndependent(cfg, EraseOps(from, upto))
  {
  }

  // Remove leaves no byte of the file and no trace of it in any instance's list, whatever holes it had.
  lemma RemoveClears(cfg: Config, w: World, strict: bool, name: string)
    requires Inv(cfg, w, strict)
    ensures var w' := RemoveSpec(cfg, w, name);
      && Inv(cfg, w', strict) && OnlyFile(w, w', name)
      && (forall id :: Stripe(cfg, w', name, id) == [])
      && (forall p :: ByteAt(cfg, w', name, p) == None)
      && (forall c :: c in w ==> Listing(w', c, name) == {})
  {
    hide Apply, Stripe, OwnerOf, Listing, Keys.Itoa, Keys.Atoi, StripeOf, OffsetIn, Inv;
    var last := LastStripe(w, name);
    var ops := EraseOps(0, last);
    var w' := RemoveSpec(cfg, w, name);
    EraseLegal(cfg, strict, 0, last);
    RunKeeps(cfg, w, strict, name, ops);
    InvFits(cfg, w, strict, name);
    forall id
      ensures Stripe(cfg, w', name, id) == []
    {
      EraseRun(cfg, w, name, 0, last, id);
      StripeBounds(cfg, w, strict, name, id);
    }
    forall c | c in w
      ensures Listing(w', c, name) == {}
    {
      forall m
        ensures m !in Listing(w', c, name)
      {
        EraseListing(cfg, w, name, 0, last, c, m);
        if m in Listing(w, c, name) {
          ListedBounds(cfg, w, strict, c, name, m);
          assert ErasedMember(cfg, name, 0, last, c, m);
        }
      }
    }
  }

  lemma StripeBounds(cfg: Config, w: World, strict: bool, name: string, id: int)
    requires Inv(cfg, w, strict)
    ensures Stripe(cfg, w, name, id) != [] ==> 0 <= id <= LastStripe(w, name)
  {
    LastStripeMeans(cfg, w, strict, name);
    assert StripeOk(cfg, w, name, id);
  }

  lemma ListedBounds(cfg: Config, w: World, strict: bool, c: string, name: string, m: string)
    requires Inv(cfg, w, strict) && m in Listing(w, c, name)
    ensures 0 <= Keys.Atoi(m) <= LastStripe(w, name)
    ensures m == Keys.Itoa(Keys.Atoi(m)) && c == OwnerOf(cfg, name, Keys.Atoi(m))
  {
    assert ListedOk(cfg, w, strict, c, name, m);
    assert Keys.Atoi(m) in ListedIds(w, name);
  }
}
