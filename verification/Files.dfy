// The sharded, striped store seen as one plain byte sequence per file, over whole runs of calls.
module Files {
  import opened Basics
  import opened Redis
  import opened Striping
  import opened Store
  import opened Content
  import opened Calls
  import opened Resize

  // The file is a byte sequence without holes.
  ghost predicate IsFlat(cfg: Config, w: World, name: string, s: seq<byte>)
    requires cfg.stripeSize >= 1
  {
    forall p: nat :: ByteAt(cfg, w, name, p) == At(s, p)
  }

  lemma FlatSize(cfg: Config, w: World, strict: bool, name: string, s: seq<byte>)
    requires Inv(cfg, w, strict) && IsFlat(cfg, w, name, s)
    ensures Size(cfg, w, name) == |s|
  {
    hide Inv, Size, ByteAt;
    InvFits(cfg, w, strict, name);
    assert forall p: nat :: p >= |s| ==> At(s, p) == None;
    SizeIs(cfg, w, strict, name, |s|);
  }

  // All stripes but the last are full, and the last one holds the rest.
  lemma FlatStripes(cfg: Config, w: World, strict: bool, name: string, s: seq<byte>, id: nat)
    requires Inv(cfg, w, strict) && IsFlat(cfg, w, name, s)
    ensures var last := LastStripeInfo(cfg.stripeSize, |s|);
      |Stripe(cfg, w, name, id)| == if id < last.id then cfg.stripeSize else if id == last.id then last.len else 0
  {
    hide Inv, Size, ByteAt, Stripe, StripeOf, OffsetIn, LastStripeInfo, Start;
    InvFits(cfg, w, strict, name);
    FlatSize(cfg, w, strict, name, s);
    InfoOfFile(cfg, w, strict, name);
    LastInfoMeans(cfg.stripeSize, |s|);
    if id < LastStripeInfo(cfg.stripeSize, |s|).id {
      FullStripe(cfg, w, name, s, id);
    }
  }

  lemma FullStripe(cfg: Config, w: World, name: string, s: seq<byte>, id: nat)
    requires StripesFit(cfg, w, name) && cfg.stripeSize >= 1 && IsFlat(cfg, w, name, s)
    requires id < LastStripeInfo(cfg.stripeSize, |s|).id
    ensures |Stripe(cfg, w, name, id)| == cfg.stripeSize
  {
    hide Stripe, StripeOf, OffsetIn, LastStripeInfo, Start;
    var S := cfg.stripeSize;
    Join(S, id, S - 1);
    BelowSize(S, |s|, Start(S, id) + (S - 1));
    assert ByteAt(cfg, w, name, Start(S, id) + (S - 1)) == At(s, Start(S, id) + (S - 1));
  }

  // ---------- calls ----------

  // extra is the number of zero-valued layout entries of a call of more than 100 stripes (0 for smaller calls).
  datatype Call =
    | WriteCall(name: string, off: nat, data: seq<byte>, extra: nat)
    | RemoveCall(name: string)
    | ResizeCall(name: string, size: nat)

  ghost function Step(cfg: Config, w: World, call: Call): World
    requires cfg.stripeSize >= 1
  {
    match call
    case WriteCall(name, off, data, extra) => WriteAtSpec(cfg, w, name, off, data, extra)
    case RemoveCall(name) => RemoveSpec(cfg, w, name)
    case ResizeCall(name, size) => ResizeSpec(cfg, w, name, size)
  }

  // The same call on a byte sequence: overwrite with zero fill, clear, truncate or zero-extend.
  function FlatStep(s: seq<byte>, call: Call): seq<byte>
  {
    match call
    case WriteCall(_, off, data, _) => Overwrite(s, off, data)
    case RemoveCall(_) => []
    case ResizeCall(_, size) => if size <= |s| then s[..size] else s + Zeros(size - |s|)
  }

  // Exactly the calls that the striped store performs on a hole-free file as a byte sequence would.
  predicate Faithful(S: nat, s: seq<byte>, call: Call)
    requires S >= 1
  {
    match call
    case WriteCall(_, off, data, _) => data == [] || off <= |s| || StripeOf(S, off) == StripeOf(S, |s|)
    case RemoveCall(_) => true
    case ResizeCall(_, size) =>
      || size <= |s| || |s| % S == 0
      || (var cur, new_ := LastStripeInfo(S, |s|), LastStripeInfo(S, size);
          cur.id == new_.id && S - cur.len <= new_.len &&
          (S - cur.len > cur.len || At(s, |s| - cur.len + (S - cur.len - 1)) == Some(0)))
  }

  lemma WriteExact(cfg: Config, w: World, strict: bool, name: string, s: seq<byte>, off: nat,
                   data: seq<byte>, extra: nat)
    requires Inv(cfg, w, strict) && IsFlat(cfg, w, name, s)
    ensures var call := WriteCall(name, off, data, extra);
      IsFlat(cfg, Step(cfg, w, call), name, FlatStep(s, call)) <==> Faithful(cfg.stripeSize, s, call)
  {
    hide Inv, ByteAt, StripeOf, OffsetIn, WriteAtSpec, Overwrite;
    InvFits(cfg, w, strict, name);
    var S := cfg.stripeSize;
    var w' := WriteAtSpec(cfg, w, name, off, data, extra);
    var s' := Overwrite(s, off, data);
    forall p: nat
      ensures ByteAt(cfg, w', name, p) == Overlay(S, At(s, p), off, data, 0, |data|, p)
    {
      WriteAtBytes(cfg, w, name, off, data, extra, p);
    }
    forall p: nat
      ensures data == [] || off <= |s| || p < |s| || p >= off ==>
        Overlay(S, At(s, p), off, data, 0, |data|, p) == At(s', p)
      ensures data != [] && |s| <= p < off ==>
        At(s', p) == Some(0) &&
        (Overlay(S, At(s, p), off, data, 0, |data|, p) == Some(0) <==> StripeOf(S, p) == StripeOf(S, off))
    {
      if data != [] {
        OverwriteAt(s, off, data, p);
      }
    }
    if data != [] && off > |s| {
      assert ByteAt(cfg, w', name, |s|) == Overlay(S, At(s, |s|), off, data, 0, |data|, |s|);
      forall p: nat | StripeOf(S, |s|) == StripeOf(S, off) && |s| <= p < off
        ensures StripeOf(S, p) == StripeOf(S, off)
      {
        SameStripe(S, off, p);
        SameStripe(S, off, |s|);
      }
    }
  }

  lemma RemoveExact(cfg: Config, w: World, strict: bool, name: string)
    requires Inv(cfg, w, strict)
    ensures IsFlat(cfg, Step(cfg, w, RemoveCall(name)), name, [])
  {
    hide Inv, ByteAt, RemoveSpec;
    RemoveClears(cfg, w, strict, name);
  }

  lemma ResizeExact(cfg: Config, w: World, strict: bool, name: string, s: seq<byte>, size: nat)
    requires Inv(cfg, w, strict) && IsFlat(cfg, w, name, s)
    ensures var call := ResizeCall(name, size);
      IsFlat(cfg, Step(cfg, w, call), name, FlatStep(s, call)) <==> Faithful(cfg.stripeSize, s, call)
  {
    hide Inv, ByteAt, StripeOf, OffsetIn, Size, Run, ShrinkOps, GrowOps, LastStripeInfo, Stripe, Start;
    InvFits(cfg, w, strict, name);
    FlatSize(cfg, w, strict, name, s);
    var S := cfg.stripeSize;
    var call := ResizeCall(name, size);
    var w', s' := Step(cfg, w, call), FlatStep(s, call);
    if size < |s| {
      forall p: nat
        ensures ByteAt(cfg, w', name, p) == At(s', p)
      {
        ShrinkBytes(cfg, w, strict, name, size, p);
      }
    } else if size > |s| {
      forall p: nat
        ensures Extended(cfg, w, name, size, p) == At(s', p)
      {
      }
      FlatResizeGuard(cfg, w, strict, name, s, size);
      GrowExact(cfg, w, strict, name, size);
    }
  }

  lemma FlatResizeGuard(cfg: Config, w: World, strict: bool, name: string, s: seq<byte>, size: nat)
    requires Inv(cfg, w, strict) && IsFlat(cfg, w, name, s) && size > |s|
    ensures GrowsRight(cfg, w, name, size) <==> Faithful(cfg.stripeSize, s, ResizeCall(name, size))
  {
    hide Inv, ByteAt, StripeOf, OffsetIn, Size, LastStripeInfo, Stripe, Start;
    InvFits(cfg, w, strict, name);
    FlatSize(cfg, w, strict, name, s);
    var S := cfg.stripeSize;
    var cur := LastStripeInfo(S, |s|);
    LastInfoMeans(S, |s|);
    DivModIs(S, |s|);
    if |s| % S != 0 {
      LastStripeByte(cfg, w, name, s, cur, S - cur.len - 1);
    }
  }

  lemma LastStripeByte(cfg: Config, w: World, name: string, s: seq<byte>, cur: LastInfo, j: nat)
    requires cfg.stripeSize >= 1 && IsFlat(cfg, w, name, s) && j < cfg.stripeSize
    requires cur.id >= 0 && Start(cfg.stripeSize, cur.id) + cur.len == |s|
    ensures At(Stripe(cfg, w, name, cur.id), j) == At(s, |s| - cur.len + j)
  {
    hide Stripe, Start, StripeOf, OffsetIn;
    Join(cfg.stripeSize, cur.id, j);
    assert ByteAt(cfg, w, name, Start(cfg.stripeSize, cur.id) + j) == At(s, |s| - cur.len + j);
  }

  // One call on one hole-free file: the store does what a byte sequence does if and only if the call is Faithful.
  lemma CallExact(cfg: Config, w: World, strict: bool, s: seq<byte>, call: Call)
    requires Inv(cfg, w, strict) && IsFlat(cfg, w, call.name, s)
    ensures IsFlat(cfg, Step(cfg, w, call), call.name, FlatStep(s, call)) <==> Faithful(cfg.stripeSize, s, call)
  {
    hide Inv, IsFlat, Step;
    InvFits(cfg, w, strict, call.name);
    match call
    case WriteCall(name, off, data, extra) => WriteExact(cfg, w, strict, name, s, off, data, extra);
    case RemoveCall(name) => RemoveExact(cfg, w, strict, name);
    case ResizeCall(name, size) => ResizeExact(cfg, w, strict, name, s, size);
  }

  // A file of three bytes grown to four, with stripes of four: the filler lands on the first byte.
  lemma GrowthOverwrites(cfg: Config, w: World, strict: bool, name: string)
    requires Inv(cfg, w, strict) && cfg.stripeSize == 4 && IsFlat(cfg, w, name, [7, 8, 9])
    ensures !IsFlat(cfg, Step(cfg, w, ResizeCall(name, 4)), name, [7, 8, 9, 0])
  {
    hide Inv, IsFlat, Step;
    var s, call := [7, 8, 9], ResizeCall(name, 4);
    ResizeExact(cfg, w, strict, name, s, 4);
    assert FlatStep(s, call) == [7, 8, 9, 0];
    LastInfoMeans(4, 3);
    LastInfoMeans(4, 4);
    DivModIs(4, 3);
    assert !Faithful(4, s, call);
  }

  // One byte written behind a whole missing stripe: the stripe stays missing.
  lemma WriteLeavesHole(cfg: Config, w: World, strict: bool, name: string)
    requires Inv(cfg, w, strict) && cfg.stripeSize == 4 && IsFlat(cfg, w, name, [])
    ensures !IsFlat(cfg, Step(cfg, w, WriteCall(name, 4, [7], 0)), name, [0, 0, 0, 0, 7])
  {
    hide Inv, IsFlat, Step;
    var call := WriteCall(name, 4, [7], 0);
    WriteExact(cfg, w, strict, name, [], 4, [7], 0);
    assert FlatStep([], call) == [0, 0, 0, 0, 7];
    assert !Faithful(4, [], call);
  }

  // ---------- runs of calls on many files ----------

  type FileTable = map<string, seq<byte>>

  function FileOf(files: FileTable, name: string): seq<byte>
  {
    if name in files then files[name] else []
  }

  ghost predicate Refines(cfg: Config, w: World, files: FileTable)
    requires cfg.stripeSize >= 1
  {
    forall name :: IsFlat(cfg, w, name, FileOf(files, name))
  }

  function SpecStep(files: FileTable, call: Call): FileTable
  {
    files[call.name := FlatStep(FileOf(files, call.name), call)]
  }

  // strict runs are made of calls of at most 100 stripes.
  predicate Allowed(strict: bool, calls: seq<Call>)
  {
    forall i :: 0 <= i < |calls| ==> strict && calls[i].WriteCall? ==> calls[i].extra == 0
  }

  ghost function RunCalls(cfg: Config, w: World, calls: seq<Call>): World
    requires cfg.stripeSize >= 1
    decreases |calls|
  {
    if calls == [] then w else RunCalls(cfg, Step(cfg, w, calls[0]), calls[1..])
  }

  predicate FaithfulRun(S: nat, files: FileTable, calls: seq<Call>)
    requires S >= 1
    decreases |calls|
  {
    calls == [] ||
    (Faithful(S, FileOf(files, calls[0].name), calls[0]) && FaithfulRun(S, SpecStep(files, calls[0]), calls[1..]))
  }

  // The store agrees with the byte sequences before, between and after the calls.
  ghost predicate AgreesThroughout(cfg: Config, w: World, files: FileTable, calls: seq<Call>)
    requires cfg.stripeSize >= 1
    decreases |calls|
  {
    Refines(cfg, w, files) &&
    (calls == [] || AgreesThroughout(cfg, Step(cfg, w, calls[0]), SpecStep(files, calls[0]), calls[1..]))
  }

  lemma StepKeeps(cfg: Config, w: World, strict: bool, call: Call)
    requires Inv(cfg, w, strict) && Allowed(strict, [call])
    ensures Inv(cfg, Step(cfg, w, call), strict) && OnlyFile(w, Step(cfg, w, call), call.name)
  {
    hide Inv, OnlyFile, WriteAtSpec, RemoveSpec, ResizeSpec;
    InvFits(cfg, w, strict, call.name);
    assert [call][0] == call;
    match call
    case WriteCall(name, off, data, extra) => WriteAtKeeps(cfg, w, strict, name, off, data, extra);
    case RemoveCall(name) => RemoveClears(cfg, w, strict, name);
    case ResizeCall(name, size) => ResizeKeeps(cfg, w, strict, name, size);
  }

  lemma InvWired(cfg: Config, w: World, strict: bool)
    requires Inv(cfg, w, strict)
    ensures Wired(cfg, w)
  {
  }

  lemma StepRefines(cfg: Config, w: World, strict: bool, files: FileTable, call: Call)
    requires Inv(cfg, w, strict) && Refines(cfg, w, files) && Allowed(strict, [call])
    ensures Refines(cfg, Step(cfg, w, call), SpecStep(files, call)) <==>
            Faithful(cfg.stripeSize, FileOf(files, call.name), call)
  {
    hide Inv, OnlyFile, Step, Faithful, FlatStep, ByteAt;
    InvWired(cfg, w, strict);
    var w', files' := Step(cfg, w, call), SpecStep(files, call);
    StepKeeps(cfg, w, strict, call);
    InvWired(cfg, w', strict);
    CallExact(cfg, w, strict, FileOf(files, call.name), call);
    forall name | name != call.name
      ensures IsFlat(cfg, w', name, FileOf(files', name))
    {
      OthersUnchanged(cfg, w, w', call.name, name);
      assert IsFlat(cfg, w, name, FileOf(files, name));
    }
    assert FileOf(files', call.name) == FlatStep(FileOf(files, call.name), call);
  }

  // Main refinement: over every run, on any number of files, the sharded store agrees throughout with plain byte
  // sequences if and only if every call of the run is faithful. The invariant holds at the end of every run.
  lemma {:induction false} RunRefines(cfg: Config, w: World, strict: bool, files: FileTable, calls: seq<Call>)
    requires Inv(cfg, w, strict) && Refines(cfg, w, files) && Allowed(strict, calls)
    ensures AgreesThroughout(cfg, w, files, calls) <==> FaithfulRun(cfg.stripeSize, files, calls)
    ensures Inv(cfg, RunCalls(cfg, w, calls), strict)
    decreases |calls|
  {
    hide Inv, Refines, Step, SpecStep, Faithful;
    InvWired(cfg, w, strict);
    if calls != [] {
      var call := calls[0];
      assert Allowed(strict, [call]) && Allowed(strict, calls[1..]);
      StepKeeps(cfg, w, strict, call);
      StepRefines(cfg, w, strict, files, call);
      if Faithful(cfg.stripeSize, FileOf(files, call.name), call) {
        RunRefines(cfg, Step(cfg, w, call), strict, SpecStep(files, call), calls[1..]);
      } else {
        RunKeepsInv(cfg, w, strict, calls);
      }
    }
  }

  // The invariant needs no faithful calls: it holds in every reachable store, sparse files included.
  lemma {:induction false} RunKeepsInv(cfg: Config, w: World, strict: bool, calls: seq<Call>)
    requires Inv(cfg, w, strict) && Allowed(strict, calls)
    ensures Inv(cfg, RunCalls(cfg, w, calls), strict)
    decreases |calls|
  {
    hide Inv, Step;
    InvWired(cfg, w, strict);
    if calls != [] {
      assert Allowed(strict, [calls[0]]) && Allowed(strict, calls[1..]);
      StepKeeps(cfg, w, strict, calls[0]);
      RunKeepsInv(cfg, Step(cfg, w, calls[0]), strict, calls[1..]);
    }
  }

  // Freshly started instances hold the empty file table.
  lemma EmptyStore(cfg: Config, w: World, strict: bool)
    requires Wired(cfg, w) && forall c :: c in w ==> w[c] == Instance(map[], map[])
    ensures Inv(cfg, w, strict) && Refines(cfg, w, map[])
  {
    hide Keys.StripeKey, Keys.StripesKey;
    forall name, id
      ensures Stripe(cfg, w, name, id) == []
    {
    }
    forall c, name
      ensures Listing(w, c, name) == {}
    {
    }
  }

  // Sharding is invisible: after calls of at most 100 stripes, an instance lists a stripe exactly when it owns the
  // stripe's key and the stripe is not empty.
  lemma ListedIffStored(cfg: Config, w: World, c: string, name: string, id: int)
    requires Inv(cfg, w, true) && c in w
    ensures Keys.Itoa(id) in Listing(w, c, name) <==>
      c == OwnerOf(cfg, name, id) && Stripe(cfg, w, name, id) != []
  {
    hide Stripe, Listing, OwnerOf, Keys.Itoa, Keys.Atoi;
    Keys.AtoiItoa(id);
    assert StripeOk(cfg, w, name, id);
    assert Keys.Itoa(id) in Listing(w, c, name) ==> ListedOk(cfg, w, true, c, name, Keys.Itoa(id));
  }

  // ---------- calls of more than 100 stripes ----------

  // A zero-valued layout entry lists stripe 0.
  lemma ExtraListed(cfg: Config, w: World, name: string, off: nat, data: seq<byte>, extra: nat)
    requires Wired(cfg, w) && extra > 0
    ensures Keys.Itoa(0) in Listing(WriteAtSpec(cfg, w, name, off, data, extra), OwnerOf(cfg, name, 0), name)
  {
    hide Apply, Stripe, Listing, Keys.Itoa, Layout;
    var op := PieceOp(data, NoPiece);
    var layout := Layout(cfg.stripeSize, off, |data|, 0);
    var before := PieceOps(data, layout) + seq(extra - 1, _ => op);
    SlotOps(data, layout, extra);
    assert PieceOps(data, Slots(cfg.stripeSize, off, |data|, extra)) == before + [op];
    RunAppend(cfg, w, name, before, [op]);
    var w1 := Run(cfg, w, name, before);
    RunWired(cfg, w, name, before);
    RunCons(cfg, w1, name, op, []);
    assert [op] + [] == [op];
    ApplyEffect(cfg, w1, name, op);
  }

  lemma {:induction false} RunWired(cfg: Config, w: World, name: string, ops: seq<StripeOp>)
    requires Wired(cfg, w)
    ensures Wired(cfg, Run(cfg, w, name, ops))
    decreases |ops|
  {
    hide Stripe, Listing;
    if ops != [] {
      ApplyEffect(cfg, w, name, ops[0]);
      RunWired(cfg, Apply(cfg, w, name, ops[0]), name, ops[1..]);
    }
  }

  // Whether stripe 0 holds a byte after a write.
  lemma FirstStripeAfter(cfg: Config, w: World, name: string, off: nat, data: seq<byte>, extra: nat)
    requires StripesFit(cfg, w, name)
    ensures Stripe(cfg, WriteAtSpec(cfg, w, name, off, data, extra), name, 0) != [] <==>
      Stripe(cfg, w, name, 0) != [] || (data != [] && off < cfg.stripeSize)
  {
    hide Stripe, WriteAtSpec;
    var w' := WriteAtSpec(cfg, w, name, off, data, extra);
    WriteAtBytes(cfg, w, name, off, data, extra, 0);
    StripeZero(cfg, w, name);
    StripeZero(cfg, w', name);
    DivModIs(cfg.stripeSize, off);
  }

  lemma StripeZero(cfg: Config, w: World, name: string)
    requires cfg.stripeSize >= 1
    ensures ByteAt(cfg, w, name, 0) == None <==> Stripe(cfg, w, name, 0) == []
  {
    hide Stripe;
  }

  // A write keeps the lists exact if and only if it makes no zero-valued entry, or stripe 0 holds a byte, or the write
  // starts in it.
  lemma StrictExactly(cfg: Config, w: World, name: string, off: nat, data: seq<byte>, extra: nat)
    requires Inv(cfg, w, true)
    ensures Inv(cfg, WriteAtSpec(cfg, w, name, off, data, extra), true) <==>
      extra == 0 || Stripe(cfg, w, name, 0) != [] || (data != [] && off < cfg.stripeSize)
  {
    hide Inv, Stripe, WriteAtSpec;
    InvFits(cfg, w, true, name);
    var w' := WriteAtSpec(cfg, w, name, off, data, extra);
    FirstStripeAfter(cfg, w, name, off, data, extra);
    if extra == 0 {
      WriteAtKeeps(cfg, w, true, name, off, data, 0);
    } else {
      InvWeaken(cfg, w);
      WriteAtKeeps(cfg, w, false, name, off, data, extra);
      if Stripe(cfg, w', name, 0) != [] {
        InvStrengthen(cfg, w, w', name);
      } else {
        ExtraListed(cfg, w, name, off, data, extra);
        NotStrict(cfg, w', name);
      }
    }
  }

  lemma InvWeaken(cfg: Config, w: World)
    requires Inv(cfg, w, true)
    ensures Inv(cfg, w, false)
  {
    hide Stripe, Listing, OwnerOf, Keys.Itoa, Keys.Atoi;
    forall c, n, m | c in w && m in Listing(w, c, n)
      ensures ListedOk(cfg, w, false, c, n, m)
    {
      assert ListedOk(cfg, w, true, c, n, m);
    }
  }

  // The one stripe that may be listed though empty is not empty.
  lemma InvStrengthen(cfg: Config, w: World, w': World, name: string)
    requires Inv(cfg, w, true) && Inv(cfg, w', false) && OnlyFile(w, w', name) && Stripe(cfg, w', name, 0) != []
    ensures Inv(cfg, w', true)
  {
    hide Stripe, Listing, OwnerOf, OnlyFile, Keys.Itoa, Keys.Atoi;
    SameClients(w, w', name);
    forall c, n, m | c in w' && m in Listing(w', c, n)
      ensures ListedOk(cfg, w', true, c, n, m)
    {
      assert ListedOk(cfg, w', false, c, n, m);
      if n != name {
        OthersUnchanged(cfg, w, w', name, n);
        assert ListedOk(cfg, w, true, c, n, m);
      }
    }
  }

  lemma NotStrict(cfg: Config, w: World, name: string)
    requires Wired(cfg, w) && Stripe(cfg, w, name, 0) == []
    requires Keys.Itoa(0) in Listing(w, OwnerOf(cfg, name, 0), name)
    ensures !Inv(cfg, w, true)
  {
    hide Stripe, Listing, Keys.Itoa, Keys.Atoi;
    Keys.AtoiItoa(0);
    assert !ListedOk(cfg, w, true, OwnerOf(cfg, name, 0), name, Keys.Itoa(0));
  }
}
