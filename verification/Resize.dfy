// Resize, shrinking and growing, exactly as the code does it, and when growing does what it promises.
module Resize {
  import opened Basics
  import opened Redis
  import opened Striping
  import opened Store
  import opened Content
  import opened Calls

  // lastStripeInfo: the id and the length of the last stripe of a file of that size; an empty file has last stripe -1.
  datatype LastInfo = LastInfo(id: int, len: nat)

  function LastStripeInfo(S: nat, size: nat): (r: LastInfo)
    requires S >= 1
    ensures 1 <= r.len <= S && r.id >= -1
  {
    var id, len := StripeOf(S, size), OffsetIn(S, size);
    if len == 0 then LastInfo(id - 1, S) else LastInfo(id, len)
  }

  // id * S + len == size.
  lemma LastInfoMeans(S: nat, size: nat)
    requires S >= 1
    ensures var r := LastStripeInfo(S, size);
      && (r.id == -1 <==> size == 0)
      && (r.id >= 0 ==> Start(S, r.id) + r.len == size)
      && (r.id == -1 ==> r.len == S)
      && (r.len == S <==> OffsetIn(S, size) == 0)
  {
    Split(S, size);
  }

  // A position is below size when it lies in an earlier stripe, or early enough in the last one.
  lemma BelowSize(S: nat, size: nat, p: nat)
    requires S >= 1
    ensures var r := LastStripeInfo(S, size);
      p < size <==> StripeOf(S, p) < r.id || (StripeOf(S, p) == r.id && OffsetIn(S, p) < r.len)
  {
    hide StripeOf, OffsetIn;
    LastInfoMeans(S, size);
    Split(S, p);
    var r, id := LastStripeInfo(S, size), StripeOf(S, p);
    if id < r.id {
      StartMonotone(S, id, r.id);
    } else if 0 <= r.id < id {
      StartMonotone(S, r.id, id);
    }
  }

  lemma InfoMonotone(S: nat, size: nat, size': nat)
    requires S >= 1 && size < size'
    ensures var r, r' := LastStripeInfo(S, size), LastStripeInfo(S, size');
      r.id < r'.id || (r.id == r'.id && r.len < r'.len)
  {
    hide StripeOf, OffsetIn;
    LastInfoMeans(S, size);
    LastInfoMeans(S, size');
    var r, r' := LastStripeInfo(S, size), LastStripeInfo(S, size');
    if 0 <= r'.id < r.id {
      StartMonotone(S, r'.id, r.id);
    }
  }

  // The info computed from GetSize is that of the real last stripe.
  lemma InfoOfFile(cfg: Config, w: World, strict: bool, name: string)
    requires Inv(cfg, w, strict)
    ensures var r := LastStripeInfo(cfg.stripeSize, Size(cfg, w, name));
      && (r.id >= 0 ==> |Stripe(cfg, w, name, r.id)| == r.len)
      && (forall id :: id > r.id ==> Stripe(cfg, w, name, id) == [])
  {
    hide Stripe, StripeOf, OffsetIn, Inv, LastStripe, LastStripeInfo;
    var S, last := cfg.stripeSize, LastStripe(w, name);
    LastStripeMeans(cfg, w, strict, name);
    InvFits(cfg, w, strict, name);
    var len := |Stripe(cfg, w, name, last)|;
    LastInfoMeans(S, Size(cfg, w, name));
    if last >= 0 && len > 0 {
      InfoOfSum(S, last, len);
    }
  }

  lemma InfoOfSum(S: nat, id: nat, len: nat)
    requires S >= 1 && 1 <= len <= S
    ensures LastStripeInfo(S, Start(S, id) + len) == LastInfo(id, len)
  {
    if len == S {
      Join(S, id + 1, 0);
      assert Start(S, id) + len == Start(S, id + 1) + 0;
    } else {
      Join(S, id, len);
    }
  }

  lemma SizeIs(cfg: Config, w: World, strict: bool, name: string, n: nat)
    requires Inv(cfg, w, strict)
    requires forall p: nat :: p >= n ==> ByteAt(cfg, w, name, p) == None
    requires n > 0 ==> ByteAt(cfg, w, name, n - 1) != None
    ensures Size(cfg, w, name) == n
  {
    hide ByteAt, Size;
    SizeMeans(cfg, w, strict, name);
    var size := Size(cfg, w, name);
    var probe := if size > n then size - 1 else n;
    assert ByteAt(cfg, w, name, probe) == None;
  }

  // ---------- shrinking ----------

  function ShrinkOps(cur: LastInfo, new_: LastInfo): seq<StripeOp>
  {
    EraseOps(new_.id + 1, cur.id) + [Trim(new_.id, new_.len)]
  }

  lemma ShrinkLegal(cfg: Config, strict: bool, cur: LastInfo, new_: LastInfo)
    requires new_.len >= 1
    ensures AllLegal(cfg, strict, ShrinkOps(cur, new_)) && PairwiseIndependent(cfg, ShrinkOps(cur, new_))
  {
  }

  lemma ShrinkStripe(cfg: Config, w: World, name: string, cur: LastInfo, new_: LastInfo, id: int)
    requires Wired(cfg, w) && new_.len >= 1
    ensures var old_ := Stripe(cfg, w, name, id);
      Stripe(cfg, Run(cfg, w, name, ShrinkOps(cur, new_)), name, id) ==
        if new_.id < id <= cur.id then []
        else if id == new_.id then Range(old_, 0, new_.len - 1)
        else old_
  {
    hide Apply, Stripe, Range;
    var erase, trim := EraseOps(new_.id + 1, cur.id), Trim(new_.id, new_.len);
    RunAppend(cfg, w, name, erase, [trim]);
    EraseRun(cfg, w, name, new_.id + 1, cur.id, id);
    var w1 := Run(cfg, w, name, erase);
    RunCons(cfg, w1, name, trim, []);
    assert [trim] + [] == [trim];
    ApplyStripe(cfg, w1, name, trim, id);
  }

  // Shrinking keeps exactly the bytes below the new size, holes included.
  lemma ShrinkBytes(cfg: Config, w: World, strict: bool, name: string, newSize: nat, p: nat)
    requires Inv(cfg, w, strict) && newSize < Size(cfg, w, name)
    ensures var S := cfg.stripeSize;
      var cur, new_ := LastStripeInfo(S, Size(cfg, w, name)), LastStripeInfo(S, newSize);
      ByteAt(cfg, Run(cfg, w, name, ShrinkOps(cur, new_)), name, p) ==
        if p < newSize then ByteAt(cfg, w, name, p) else None
  {
    hide Stripe, StripeOf, OffsetIn, LastStripeInfo, Size, Run, Start, Inv, Range;
    InvFits(cfg, w, strict, name);
    var S, size := cfg.stripeSize, Size(cfg, w, name);
    var cur, new_ := LastStripeInfo(S, size), LastStripeInfo(S, newSize);
    var id := StripeOf(S, p);
    InfoOfFile(cfg, w, strict, name);
    BelowSize(S, newSize, p);
    InfoMonotone(S, newSize, size);
    ShrinkStripe(cfg, w, name, cur, new_, id);
    ShrunkAt(cur, new_, id, Stripe(cfg, w, name, id), OffsetIn(S, p));
  }

  lemma ShrunkAt(cur: LastInfo, new_: LastInfo, id: int, s: seq<byte>, j: nat)
    requires new_.len >= 1 && new_.id <= cur.id && (id > cur.id ==> s == [])
    ensures At(if new_.id < id <= cur.id then [] else if id == new_.id then Range(s, 0, new_.len - 1) else s, j) ==
      if id < new_.id || (id == new_.id && j < new_.len) then At(s, j) else None
  {
  }

  // ---------- growing ----------

  function Pads(S: nat, from: int, upto: int): seq<StripeOp>
    requires S >= 1
  {
    if from > upto then [] else seq(upto - from + 1, i => Write(from + i, S - 1, [0]))
  }

  function GrowOps(S: nat, cur: LastInfo, new_: LastInfo): seq<StripeOp>
    requires S >= 1 && new_.len >= 1
  {
    Pads(S, cur.id + 1, new_.id - 1) + [Write(new_.id, new_.len - 1, [0])] +
    (if cur.len < S then [Write(cur.id, S - cur.len - 1, [0])] else [])
  }

  lemma GrowLegal(cfg: Config, strict: bool, cur: LastInfo, new_: LastInfo)
    requires cfg.stripeSize >= 1 && 1 <= new_.len <= cfg.stripeSize && 1 <= cur.len <= cfg.stripeSize
    requires -1 <= cur.id <= new_.id && new_.id >= 0 && (cur.id == -1 ==> cur.len == cfg.stripeSize)
    ensures AllLegal(cfg, strict, GrowOps(cfg.stripeSize, cur, new_))
    ensures PairwiseIndependent(cfg, GrowOps(cfg.stripeSize, cur, new_))
  {
    var S := cfg.stripeSize;
    var pads, ops := Pads(S, cur.id + 1, new_.id - 1), GrowOps(S, cur, new_);
    assert forall i :: 0 <= i < |pads| ==> ops[i] == Write(cur.id + 1 + i, S - 1, [0]);
    assert ops[|pads|] == Write(new_.id, new_.len - 1, [0]);
    assert cur.len < S ==> ops[|pads| + 1] == Write(cur.id, S - cur.len - 1, [0]);
    assert cur.len == S ==> |ops| == |pads| + 1;
    assert cur.len < S ==> |ops| == |pads| + 2;
  }

  function Padded(s: seq<byte>, off: nat): seq<byte> { Overwrite(s, off, [0]) }

  lemma {:induction false} PadRun(cfg: Config, w: World, name: string, from: int, upto: int, id: int)
    requires StripesFit(cfg, w, name) && from >= 0
    ensures StripesFit(cfg, Run(cfg, w, name, Pads(cfg.stripeSize, from, upto)), name)
    ensures var old_ := Stripe(cfg, w, name, id);
      Stripe(cfg, Run(cfg, w, name, Pads(cfg.stripeSize, from, upto)), name, id) ==
        if from <= id <= upto then Padded(old_, cfg.stripeSize - 1) else old_
    decreases upto - from + 1
  {
    hide Apply, Stripe, Padded;
    var S := cfg.stripeSize;
    if from <= upto {
      var op := Write(from, S - 1, [0]);
      assert Pads(S, from, upto) == [op] + Pads(S, from + 1, upto);
      RunCons(cfg, w, name, op, Pads(S, from + 1, upto));
      PadStep(cfg, w, name, op, id);
      PadRun(cfg, Apply(cfg, w, name, op), name, from + 1, upto, id);
    }
  }

  lemma PadStep(cfg: Config, w: World, name: string, op: StripeOp, id: int)
    requires StripesFit(cfg, w, name) && op.Write? && op.data == [0] && op.id >= 0 && op.off < cfg.stripeSize
    ensures StripesFit(cfg, Apply(cfg, w, name, op), name)
    ensures Stripe(cfg, Apply(cfg, w, name, op), name, id) ==
      if id == op.id then Padded(Stripe(cfg, w, name, id), op.off) else Stripe(cfg, w, name, id)
  {
    hide Apply, Stripe, Overwrite;
    ApplyStripe(cfg, w, name, op, id);
    StepFits(cfg, w, name, op);
    WriteIsOverwrite(cfg, Stripe(cfg, w, name, id), op);
  }

  // Content of stripe id after the growing goroutines, in terms of its old content.
  function GrownStripe(S: nat, cur: LastInfo, new_: LastInfo, id: int, s: seq<byte>): seq<byte>
    requires S >= 1 && new_.len >= 1
  {
    var s1 := if cur.id < id < new_.id then Padded(s, S - 1) else s;
    var s2 := if id == new_.id then Padded(s1, new_.len - 1) else s1;
    if id == cur.id && cur.len < S then Padded(s2, S - cur.len - 1) else s2
  }

  lemma GrowStripe(cfg: Config, w: World, name: string, cur: LastInfo, new_: LastInfo, id: int)
    requires StripesFit(cfg, w, name) && cfg.stripeSize >= 1
    requires 1 <= new_.len <= cfg.stripeSize && 1 <= cur.len <= cfg.stripeSize
    requires -1 <= cur.id <= new_.id && new_.id >= 0 && (cur.id == -1 ==> cur.len == cfg.stripeSize)
    ensures Stripe(cfg, Run(cfg, w, name, GrowOps(cfg.stripeSize, cur, new_)), name, id) ==
            GrownStripe(cfg.stripeSize, cur, new_, id, Stripe(cfg, w, name, id))
  {
    hide Apply, Stripe, Padded;
    var S := cfg.stripeSize;
    var pads := Pads(S, cur.id + 1, new_.id - 1);
    var a := Write(new_.id, new_.len - 1, [0]);
    var w1 := Run(cfg, w, name, pads);
    var w2 := Apply(cfg, w1, name, a);
    PadRun(cfg, w, name, cur.id + 1, new_.id - 1, id);
    PadStep(cfg, w1, name, a, id);
    if cur.len < S {
      var b := Write(cur.id, S - cur.len - 1, [0]);
      assert GrowOps(S, cur, new_) == pads + ([a] + [b]);
      RunAppend(cfg, w, name, pads, [a] + [b]);
      RunCons(cfg, w1, name, a, [b]);
      RunCons(cfg, w2, name, b, []);
      assert [b] + [] == [b];
      PadStep(cfg, w2, name, b, id);
    } else {
      assert GrowOps(S, cur, new_) == pads + [a];
      RunAppend(cfg, w, name, pads, [a]);
      RunCons(cfg, w1, name, a, []);
      assert [a] + [] == [a];
    }
  }

  // What growing should give: the old bytes, zeros up to the new size, nothing after it.
  ghost function Extended(cfg: Config, w: World, name: string, newSize: nat, p: nat): Option<byte>
    requires cfg.stripeSize >= 1
  {
    if p < Size(cfg, w, name) then ByteAt(cfg, w, name, p) else if p < newSize then Some(0) else None
  }

  // Exactly when the code gives that: nothing to fill in the old last stripe, or its misplaced filler byte falls on a
  // byte that is, or becomes, a zero of the same stripe.
  ghost predicate GrowsRight(cfg: Config, w: World, name: string, newSize: nat)
    requires cfg.stripeSize >= 1
  {
    var S := cfg.stripeSize;
    var cur, new_ := LastStripeInfo(S, Size(cfg, w, name)), LastStripeInfo(S, newSize);
    || Size(cfg, w, name) % S == 0
    || (cur.id == new_.id && S - cur.len <= new_.len &&
        (S - cur.len > cur.len || At(Stripe(cfg, w, name, cur.id), S - cur.len - 1) == Some(0)))
  }

  function GrowFacts(S: nat, cur: LastInfo, new_: LastInfo): bool
  {
    && S >= 1 && 1 <= new_.len <= S && 1 <= cur.len <= S
    && -1 <= cur.id <= new_.id && new_.id >= 0
    && (cur.id == -1 ==> cur.len == S) && (cur.id == new_.id ==> cur.len < new_.len)
  }

  // The old content of a stripe, given where the file ends: full knowledge is only needed of its length.
  predicate OldStripe(S: nat, cur: LastInfo, id: int, s: seq<byte>)
  {
    && |s| <= S && (id > cur.id ==> s == []) && (id == cur.id >= 0 ==> |s| == cur.len)
  }

  function BelowInfo(r: LastInfo, id: int, j: nat): bool { id < r.id || (id == r.id && j < r.len) }

  function ExtendedAt(cur: LastInfo, new_: LastInfo, id: int, s: seq<byte>, j: nat): Option<byte>
  {
    if BelowInfo(cur, id, j) then At(s, j) else if BelowInfo(new_, id, j) then Some(0) else None
  }

  lemma PaddedAt(s: seq<byte>, off: nat, j: nat)
    ensures At(Padded(s, off), j) ==
      if j == off then Some(0) else if j < |s| then Some(s[j]) else if j < off then Some(0) else None
  {
  }

  predicate Harmless(S: nat, cur: LastInfo, new_: LastInfo, s: seq<byte>)
  {
    cur.id == new_.id && S - cur.len <= new_.len &&
    (S - cur.len > cur.len || At(s, S - cur.len - 1) == Some(0))
  }

  lemma GrownStripeRight(S: nat, cur: LastInfo, new_: LastInfo, id: nat, s: seq<byte>, j: nat)
    requires GrowFacts(S, cur, new_) && OldStripe(S, cur, id, s) && j < S
    requires cur.len == S || id != cur.id || Harmless(S, cur, new_, s)
    ensures At(GrownStripe(S, cur, new_, id, s), j) == ExtendedAt(cur, new_, id, s, j)
  {
    hide Padded;
    var s1 := if cur.id < id < new_.id then Padded(s, S - 1) else s;
    var s2 := if id == new_.id then Padded(s1, new_.len - 1) else s1;
    PaddedAt(s, S - 1, j);
    PaddedAt(s1, new_.len - 1, j);
    if id == cur.id && cur.len < S {
      PaddedAt(s2, S - cur.len - 1, j);
    }
  }

  // Offset of a byte of the old last stripe, or just behind it, that literal growth gets wrong.
  function WrongOffset(S: nat, cur: LastInfo, new_: LastInfo): int
  {
    if new_.id > cur.id then S - 1 else S - cur.len - 1
  }

  lemma GrownStripeWrong(S: nat, cur: LastInfo, new_: LastInfo, s: seq<byte>)
    requires GrowFacts(S, cur, new_) && cur.len < S && OldStripe(S, cur, cur.id, s) && !Harmless(S, cur, new_, s)
    ensures var j := WrongOffset(S, cur, new_);
      && 0 <= j < S
      && At(GrownStripe(S, cur, new_, cur.id, s), j) != ExtendedAt(cur, new_, cur.id, s, j)
  {
    hide Padded;
    var j: nat := WrongOffset(S, cur, new_);
    var s2 := if cur.id == new_.id then Padded(s, new_.len - 1) else s;
    PaddedAt(s, new_.len - 1, j);
    PaddedAt(s2, S - cur.len - 1, j);
  }

  lemma GrowBytes(cfg: Config, w: World, strict: bool, name: string, newSize: nat, p: nat)
    requires Inv(cfg, w, strict) && newSize > Size(cfg, w, name)
    ensures var S := cfg.stripeSize;
      var cur, new_ := LastStripeInfo(S, Size(cfg, w, name)), LastStripeInfo(S, newSize);
      var id, j := StripeOf(S, p), OffsetIn(S, p);
      && GrowFacts(S, cur, new_) && OldStripe(S, cur, id, Stripe(cfg, w, name, id))
      && ByteAt(cfg, Run(cfg, w, name, GrowOps(S, cur, new_)), name, p) ==
           At(GrownStripe(S, cur, new_, id, Stripe(cfg, w, name, id)), j)
      && Extended(cfg, w, name, newSize, p) == ExtendedAt(cur, new_, id, Stripe(cfg, w, name, id), j)
  {
    hide Stripe, StripeOf, OffsetIn, Inv, LastStripeInfo, Size, GrownStripe, GrowOps, Run;
    var S, size := cfg.stripeSize, Size(cfg, w, name);
    InvFits(cfg, w, strict, name);
    var cur, new_ := LastStripeInfo(S, size), LastStripeInfo(S, newSize);
    LastInfoMeans(S, size);
    LastInfoMeans(S, newSize);
    InfoMonotone(S, size, newSize);
    InfoOfFile(cfg, w, strict, name);
    GrowStripe(cfg, w, name, cur, new_, StripeOf(S, p));
    BelowSize(S, size, p);
    BelowSize(S, newSize, p);
  }

  ghost predicate GivesExtended(cfg: Config, w: World, w': World, name: string, newSize: nat)
    requires cfg.stripeSize >= 1
  {
    forall p: nat :: ByteAt(cfg, w', name, p) == Extended(cfg, w, name, newSize, p)
  }

  // Growing zero-extends the file if and only if GrowsRight holds before the call.
  lemma GrowExact(cfg: Config, w: World, strict: bool, name: string, newSize: nat)
    requires Inv(cfg, w, strict) && newSize > Size(cfg, w, name)
    ensures var S := cfg.stripeSize;
      var cur, new_ := LastStripeInfo(S, Size(cfg, w, name)), LastStripeInfo(S, newSize);
      GivesExtended(cfg, w, Run(cfg, w, name, GrowOps(S, cur, new_)), name, newSize) <==>
      GrowsRight(cfg, w, name, newSize)
  {
    hide Stripe, StripeOf, OffsetIn, Inv, LastStripeInfo, Size, GrownStripe, GrowOps, Run, ByteAt, Extended,
         ExtendedAt, Start;
    var S, size := cfg.stripeSize, Size(cfg, w, name);
    InvFits(cfg, w, strict, name);
    var cur, new_ := LastStripeInfo(S, size), LastStripeInfo(S, newSize);
    var w' := Run(cfg, w, name, GrowOps(S, cur, new_));
    DivModIs(S, size);
    LastInfoMeans(S, size);
    GrowBytes(cfg, w, strict, name, newSize, 0);
    if GrowsRight(cfg, w, name, newSize) {
      forall p: nat
        ensures ByteAt(cfg, w', name, p) == Extended(cfg, w, name, newSize, p)
      {
        GrowBytes(cfg, w, strict, name, newSize, p);
        GrownStripeRight(S, cur, new_, StripeOf(S, p), Stripe(cfg, w, name, StripeOf(S, p)), OffsetIn(S, p));
      }
    } else {
      var s, j := Stripe(cfg, w, name, cur.id), WrongOffset(S, cur, new_);
      InfoOfFile(cfg, w, strict, name);
      Join(S, cur.id, j);
      var p := Start(S, cur.id) + j;
      GrowBytes(cfg, w, strict, name, newSize, p);
      GrownStripeWrong(S, cur, new_, s);
      assert ByteAt(cfg, w', name, p) != Extended(cfg, w, name, newSize, p);
    }
  }

  // GetSize afterwards is the requested size exactly when the filler byte does not overshoot it.
  lemma GrowSize(cfg: Config, w: World, strict: bool, name: string, newSize: nat)
    requires Inv(cfg, w, strict) && newSize > Size(cfg, w, name)
    ensures var S := cfg.stripeSize;
      var cur, new_ := LastStripeInfo(S, Size(cfg, w, name)), LastStripeInfo(S, newSize);
      && Inv(cfg, Run(cfg, w, name, GrowOps(S, cur, new_)), strict)
      && OnlyFile(w, Run(cfg, w, name, GrowOps(S, cur, new_)), name)
      && (Size(cfg, Run(cfg, w, name, GrowOps(S, cur, new_)), name) == newSize <==>
          cur.len == S || cur.id < new_.id || S - cur.len <= new_.len)
  {
    hide Stripe, StripeOf, OffsetIn, Inv, LastStripeInfo, Size, GrownStripe, GrowOps, Run, ByteAt, Extended,
         ExtendedAt, Start;
    InvFits(cfg, w, strict, name);
    var S, size := cfg.stripeSize, Size(cfg, w, name);
    var cur, new_ := LastStripeInfo(S, size), LastStripeInfo(S, newSize);
    var w' := Run(cfg, w, name, GrowOps(S, cur, new_));
    GrowBytes(cfg, w, strict, name, newSize, 0);
    GrowLegal(cfg, strict, cur, new_);
    RunKeeps(cfg, w, strict, name, GrowOps(S, cur, new_));
    LastInfoMeans(S, newSize);
    var end := if cur.len < S && cur.id == new_.id && S - cur.len > new_.len then S - cur.len else new_.len;
    var n := Start(S, new_.id) + end;
    forall p: nat
      ensures p >= n ==> ByteAt(cfg, w', name, p) == None
      ensures p == n - 1 ==> ByteAt(cfg, w', name, p) != None
    {
      GrowBytes(cfg, w, strict, name, newSize, p);
      Split(S, p);
      var id, j := StripeOf(S, p), OffsetIn(S, p);
      if p == n - 1 {
        Join(S, new_.id, end - 1);
      }
      if p >= n && id < new_.id {
        StartMonotone(S, id, new_.id);
      }
      GrownEnd(S, cur, new_, id, Stripe(cfg, w, name, id), j, end);
    }
    SizeIs(cfg, w', strict, name, n);
  }

  lemma GrownEnd(S: nat, cur: LastInfo, new_: LastInfo, id: nat, s: seq<byte>, j: nat, end: nat)
    requires GrowFacts(S, cur, new_) && OldStripe(S, cur, id, s) && j < S
    requires end == if cur.len < S && cur.id == new_.id && S - cur.len > new_.len then S - cur.len else new_.len
    ensures id > new_.id || (id == new_.id && j >= end) ==> At(GrownStripe(S, cur, new_, id, s), j) == None
    ensures id == new_.id && j == end - 1 ==> At(GrownStripe(S, cur, new_, id, s), j) != None
  {
  }

  // ---------- Resize ----------

  ghost function ResizeSpec(cfg: Config, w: World, name: string, newSize: nat): World
    requires cfg.stripeSize >= 1
  {
    var S, size := cfg.stripeSize, Size(cfg, w, name);
    var cur, new_ := LastStripeInfo(S, size), LastStripeInfo(S, newSize);
    if newSize < size then Run(cfg, w, name, ShrinkOps(cur, new_))
    else if newSize > size then Run(cfg, w, name, GrowOps(S, cur, new_))
    else w
  }

  lemma ResizeKeeps(cfg: Config, w: World, strict: bool, name: string, newSize: nat)
    requires Inv(cfg, w, strict)
    ensures Inv(cfg, ResizeSpec(cfg, w, name, newSize), strict)
    ensures OnlyFile(w, ResizeSpec(cfg, w, name, newSize), name)
  {
    hide Stripe, Inv, Size, GrowOps, Run, LastStripeInfo;
    InvFits(cfg, w, strict, name);
    var S, size := cfg.stripeSize, Size(cfg, w, name);
    var cur, new_ := LastStripeInfo(S, size), LastStripeInfo(S, newSize);
    if newSize < size {
      ShrinkLegal(cfg, strict, cur, new_);
      RunKeeps(cfg, w, strict, name, ShrinkOps(cur, new_));
    } else if newSize > size {
      GrowSize(cfg, w, strict, name, newSize);
    }
  }

  // After shrinking, GetSize is the new size if a byte is left just below it, and never more.
  lemma ShrinkSize(cfg: Config, w: World, strict: bool, name: string, newSize: nat)
    requires Inv(cfg, w, strict) && newSize < Size(cfg, w, name)
    ensures Size(cfg, ResizeSpec(cfg, w, name, newSize), name) <= newSize
    ensures Size(cfg, ResizeSpec(cfg, w, name, newSize), name) == newSize <==>
      newSize == 0 || ByteAt(cfg, w, name, newSize - 1) != None
  {
    hide Inv, Size, ShrinkOps, Run, ByteAt, LastStripeInfo;
    InvFits(cfg, w, strict, name);
    var w' := ResizeSpec(cfg, w, name, newSize);
    ResizeKeeps(cfg, w, strict, name, newSize);
    SizeMeans(cfg, w', strict, name);
    forall p: nat
      ensures ByteAt(cfg, w', name, p) == if p < newSize then ByteAt(cfg, w, name, p) else None
    {
      ShrinkBytes(cfg, w, strict, name, newSize, p);
    }
  }
}
