// The DataStore object: every public call, with its goroutines run in an arbitrary order.
module DataStores {
  import opened Basics
  import opened Redis
  import opened Striping
  import opened Store
  import opened Content
  import opened Calls
  import opened Resize
  import opened Reads
  import opened Files

  lemma AnElement<T>(s: set<T>)
    ensures s == {} || exists x :: x in s
  {
    if !exists x :: x in s {
      assert s == {};
    }
  }

  lemma PieceOpsWithout(data: seq<byte>, ps: seq<Piece>, i: nat)
    requires i < |ps|
    ensures multiset(PieceOps(data, ps)) == multiset(PieceOps(data, Without(ps, i))) + multiset{PieceOp(data, ps[i])}
  {
    assert PieceOps(data, Without(ps, i)) == Without(PieceOps(data, ps), i);
  }

  lemma {:induction false} PieceOpsPermuted(data: seq<byte>, a: seq<Piece>, b: seq<Piece>)
    requires multiset(a) == multiset(b)
    ensures multiset(PieceOps(data, a)) == multiset(PieceOps(data, b))
    decreases |a|
  {
    if a == [] {
      assert |multiset(b)| == |b|;
    } else {
      assert a[0] in multiset(b);
      var i :| 0 <= i < |b| && b[i] == a[0];
      assert multiset(Without(a, 0)) == multiset(a) - multiset{a[0]};
      assert multiset(Without(b, i)) == multiset(b) - multiset{b[i]};
      PieceOpsPermuted(data, Without(a, 0), Without(b, i));
      PieceOpsWithout(data, a, 0);
      PieceOpsWithout(data, b, i);
    }
  }

  // Length and capacity of stripeLayout's slice after k pieces. growth(n) is the capacity that Go's append gives a full
  // slice of length n. Growing uses 2*cap as a length, which fills the slice with zero-valued entries.
  datatype SliceShape = SliceShape(length: nat, capacity: nat)

  function Shape(k: nat, growth: nat -> nat): (s: SliceShape)
    ensures k <= s.length <= s.capacity && s.capacity >= 100
    ensures k <= 100 ==> s == SliceShape(k, 100)
    ensures k > 100 ==> s.length > k
  {
    if k == 0 then SliceShape(0, 100)
    else NextShape(Shape(k - 1, growth), growth)
  }

  // How many zero-valued entries a call gets: none up to 100 stripes, some beyond.
  function ExtraSlots(S: nat, off: nat, n: nat, growth: nat -> nat): (extra: nat)
    requires S >= 1
    ensures extra == 0 <==> |Layout(S, off, n, 0)| <= 100
  {
    var k := |Layout(S, off, n, 0)|;
    Shape(k, growth).length - k
  }

  // A new slice of length n that starts with the old one; the rest of it holds zero values.
  function Copy(stripes: seq<Piece>, n: nat): (r: seq<Piece>)
    requires |stripes| <= n
    ensures |r| == n && r == stripes + seq(n - |stripes|, _ => NoPiece)
  {
    seq(n, i requires 0 <= i => if i < |stripes| then stripes[i] else NoPiece)
  }

  // stripes is a permutation of done and of some zero-valued entries.
  ghost predicate PaddedSlots(stripes: seq<Piece>, done: seq<Piece>)
  {
    && |done| <= |stripes|
    && multiset(stripes) == multiset(done) + multiset(seq(|stripes| - |done|, _ => NoPiece))
  }

  lemma GrownSlots(stripes: seq<Piece>, done: seq<Piece>, n: nat)
    requires |stripes| <= n && PaddedSlots(stripes, done)
    ensures PaddedSlots(Copy(stripes, n), done)
  {
    assert seq(n - |done|, _ => NoPiece) ==
           seq(|stripes| - |done|, _ => NoPiece) + seq(n - |stripes|, _ => NoPiece);
  }

  lemma LayoutStep(S: nat, off: nat, n: nat, done: seq<Piece>, pos: nat)
    requires S >= 1 && pos < n && Layout(S, off, n, 0) == done + Layout(S, off, n, pos)
    ensures var len := PieceLen(S, off, n, pos);
      var piece := Piece((off + pos) / S, (off + pos) % S, pos, len);
      Layout(S, off, n, 0) == (done + [piece]) + Layout(S, off, n, pos + len)
  {
    hide StripeOf, OffsetIn, Layout, PieceLen;
    DivModIs(S, off + pos);
    LayoutCons(S, off, n, pos);
    var len := PieceLen(S, off, n, pos);
    var piece := Piece((off + pos) / S, (off + pos) % S, pos, len);
    assert done + ([piece] + Layout(S, off, n, pos + len)) == (done + [piece]) + Layout(S, off, n, pos + len);
  }

  // One round of the loop: grow if full, then append.
  function NextShape(s: SliceShape, growth: nat -> nat): SliceShape
  {
    var t := if s.length >= s.capacity then SliceShape(2 * s.capacity, 2 * s.capacity) else s;
    SliceShape(t.length + 1, if t.length == t.capacity then Max(t.length + 1, growth(t.length)) else t.capacity)
  }

  // What the loop of stripeLayout keeps: the pieces so far, and zero-valued entries among them.
  ghost predicate LayoutSoFar(S: nat, off: nat, n: nat, growth: nat -> nat, stripes: seq<Piece>, capacity: nat,
                              pos: nat, done: seq<Piece>)
    requires S >= 1
  {
    && pos <= n && PaddedSlots(stripes, done)
    && Shape(|done|, growth) == SliceShape(|stripes|, capacity)
    && Layout(S, off, n, 0) == done + Layout(S, off, n, pos)
    && (|done| <= 100 ==> stripes == done)
  }

  lemma AppendSlot(stripes: seq<Piece>, done: seq<Piece>, piece: Piece)
    requires PaddedSlots(stripes, done)
    ensures PaddedSlots(stripes + [piece], done + [piece])
  {
    assert |stripes + [piece]| - |done + [piece]| == |stripes| - |done|;
  }

  method StripeLayout(S: nat, off: nat, n: nat, growth: nat -> nat) returns (stripes: seq<Piece>)
    requires S >= 1 && forall k :: growth(k) > k
    ensures multiset(stripes) == multiset(Slots(S, off, n, ExtraSlots(S, off, n, growth)))
    ensures |Layout(S, off, n, 0)| <= 100 ==> stripes == Layout(S, off, n, 0)
  {
    hide StripeOf, OffsetIn, LayoutSoFar;
    stripes := [];
    var capacity: nat, pos: nat := 100, 0;
    ghost var done: seq<Piece> := [];
    LayoutStart(S, off, n, growth);
    while pos < n
      invariant LayoutSoFar(S, off, n, growth, stripes, capacity, pos, done)
    {
      LayoutRound(S, off, n, growth, stripes, capacity, pos, done);
      if |stripes| >= capacity {
        stripes := Copy(stripes, 2 * capacity);
        capacity := 2 * capacity;
      }
      var id, offset := (off + pos) / S, (off + pos) % S;
      DivModIs(S, off + pos);
      var stripeLen := n - pos;
      if stripeLen > S - offset {
        stripeLen := S - offset;
      }
      var piece := Piece(id, offset, pos, stripeLen);
      if |stripes| == capacity {
        capacity := growth(|stripes|);
      }
      stripes := stripes + [piece];
      pos := pos + stripeLen;
      done := done + [piece];
    }
    LayoutEnd(S, off, n, growth, stripes, capacity, pos, done);
  }

  lemma LayoutStart(S: nat, off: nat, n: nat, growth: nat -> nat)
    requires S >= 1
    ensures LayoutSoFar(S, off, n, growth, [], 100, 0, [])
  {
  }

  lemma ShapeNext(k: nat, growth: nat -> nat)
    ensures Shape(k + 1, growth) == NextShape(Shape(k, growth), growth)
  {
  }

  // One round of the loop, as a whole.
  lemma LayoutRound(S: nat, off: nat, n: nat, growth: nat -> nat, stripes: seq<Piece>, capacity: nat,
                    pos: nat, done: seq<Piece>)
    requires S >= 1 && pos < n && LayoutSoFar(S, off, n, growth, stripes, capacity, pos, done)
    requires forall k :: growth(k) > k
    ensures |stripes| <= capacity
    ensures var len := PieceLen(S, off, n, pos);
      var piece := Piece((off + pos) / S, (off + pos) % S, pos, len);
      var grown := if |stripes| >= capacity then Copy(stripes, 2 * capacity) else stripes;
      var shape := NextShape(SliceShape(|stripes|, capacity), growth);
      LayoutSoFar(S, off, n, growth, grown + [piece], shape.capacity, pos + len, done + [piece])
  {
    hide StripeOf, OffsetIn, Copy, PieceLen, Layout, Shape, PaddedSlots;
    var len := PieceLen(S, off, n, pos);
    var piece := Piece((off + pos) / S, (off + pos) % S, pos, len);
    var grown := if |stripes| >= capacity then Copy(stripes, 2 * capacity) else stripes;
    LayoutStep(S, off, n, done, pos);
    ShapeNext(|done|, growth);
    assert |done + [piece]| == |done| + 1 && |grown + [piece]| == |grown| + 1;
    if |stripes| >= capacity {
      GrownSlots(stripes, done, 2 * capacity);
    }
    AppendSlot(grown, done, piece);
    assert |done + [piece]| <= 100 ==> grown + [piece] == done + [piece];
  }

  lemma LayoutEnd(S: nat, off: nat, n: nat, growth: nat -> nat, stripes: seq<Piece>, capacity: nat,
                  pos: nat, done: seq<Piece>)
    requires S >= 1 && pos >= n && LayoutSoFar(S, off, n, growth, stripes, capacity, pos, done)
    ensures multiset(stripes) == multiset(Slots(S, off, n, ExtraSlots(S, off, n, growth)))
    ensures |Layout(S, off, n, 0)| <= 100 ==> stripes == Layout(S, off, n, 0)
  {
    assert done + [] == done;
  }

  // The count ReadAt returns: the positions of the range that hold a byte, plus the length of stripe 0 once per
  // zero-valued entry.
  function ReadTotal(cfg: Config, growth: nat -> nat, w: World, name: string, off: nat, n: nat): nat
    requires cfg.stripeSize >= 1
  {
    CountDefined(cfg, w, name, off, n) + ExtraSlots(cfg.stripeSize, off, n, growth) * |Stripe(cfg, w, name, 0)|
  }

  // ReadAt counts exactly the bytes it copied if and only if the call spans at most 100 stripes or the file has no
  // first byte.
  lemma ReadTotalExact(cfg: Config, growth: nat -> nat, w: World, name: string, off: nat, n: nat)
    requires StripesFit(cfg, w, name) && cfg.stripeSize >= 1
    ensures ReadTotal(cfg, growth, w, name, off, n) == CountDefined(cfg, w, name, off, n) <==>
      |Layout(cfg.stripeSize, off, n, 0)| <= 100 || ByteAt(cfg, w, name, 0) == None
  {
    hide CountDefined, StripesFit, Layout, SumFetched;
    ReadCountIs(cfg, w, name, off, n, ExtraSlots(cfg.stripeSize, off, n, growth));
  }

  // A file read through 101 stripes: more bytes are counted than were copied.
  lemma ReadOvercounts(cfg: Config, growth: nat -> nat, w: World, name: string)
    requires StripesFit(cfg, w, name) && cfg.stripeSize == 1 && ByteAt(cfg, w, name, 0) != None
    ensures ReadTotal(cfg, growth, w, name, 0, 101) > CountDefined(cfg, w, name, 0, 101)
  {
    hide CountDefined, StripesFit, Layout, SumFetched, ByteAt;
    OneBytePieces(0, 101, 0);
    ReadTotalExact(cfg, growth, w, name, 0, 101);
  }

  lemma {:induction false} OneBytePieces(off: nat, n: nat, pos: nat)
    requires pos <= n
    ensures |Layout(1, off, n, pos)| == n - pos
    decreases n - pos
  {
    hide StripeOf, OffsetIn, Layout;
    if pos == n {
      LayoutNil(1, off, n, pos);
    } else {
      LayoutCons(1, off, n, pos);
      OneBytePieces(off, n, pos + 1);
    }
  }

  // 101 one-byte stripes written behind an absent first one: stripe 0 is listed and has no byte.
  lemma LongWriteListsNothing(cfg: Config, growth: nat -> nat, w: World, name: string, data: seq<byte>)
    requires Inv(cfg, w, true) && cfg.stripeSize == 1 && Stripe(cfg, w, name, 0) == [] && |data| == 101
    ensures !Inv(cfg, WriteAtSpec(cfg, w, name, 1, data, ExtraSlots(1, 1, 101, growth)), true)
  {
    hide Inv, Stripe, WriteAtSpec, Layout;
    OneBytePieces(1, 101, 0);
    StrictExactly(cfg, w, name, 1, data, ExtraSlots(1, 1, 101, growth));
  }

  // Byte i of the buffer after one goroutine has copied its reply.
  function Copied(reply: seq<byte>, ok: bool, p: Piece, i: int, old_: byte): byte
  {
    if ok && p.pos <= i < p.pos + p.len && i - p.pos < |reply| then reply[i - p.pos] else old_
  }

  class DataStore {
    const cfg: Config
    const growth: nat -> nat
    var world: World

    ghost predicate Valid()
      reads this
    {
      Inv(cfg, world, false) && forall k :: growth(k) > k
    }

    constructor (cfg: Config, growth: nat -> nat, world: World)
      requires Inv(cfg, world, false) && forall k :: growth(k) > k
      ensures Valid() && this.cfg == cfg && this.world == world
    {
      this.cfg, this.growth, this.world := cfg, growth, world;
    }

    // ---------- the goroutines ----------

    method WriteStripe(name: string, id: int, off: nat, data: seq<byte>)
      requires Wired(cfg, world)
      modifies this
      ensures world == Apply(cfg, old(world), name, Write(id, off, data))
    {
      var key := Keys.StripeKey(name, id);
      var c := cfg.owner(key);
      var db := SAdd(world[c], Keys.StripesKey(name), Keys.Itoa(id));
      if off == 0 && |data| == cfg.stripeSize {
        db := Set(db, key, data);
      } else {
        db := SetRange(db, key, off, data);
      }
      world := world[c := db];
    }

    method RemoveStripe(name: string, id: int)
      requires Wired(cfg, world)
      modifies this
      ensures world == Apply(cfg, old(world), name, Erase(id))
    {
      var key := Keys.StripeKey(name, id);
      var c := cfg.owner(key);
      var db := SRem(world[c], Keys.StripesKey(name), Keys.Itoa(id));
      db := Unlink(db, key);
      world := world[c := db];
    }

    method TrimStripe(name: string, id: int, size: nat)
      requires Wired(cfg, world)
      modifies this
      ensures world == Apply(cfg, old(world), name, Trim(id, size))
    {
      var key := Keys.StripeKey(name, id);
      var c := cfg.owner(key);
      var data := [];
      if size != 0 {
        data := Range(StringAt(world[c], key), 0, size - 1);
      }
      world := world[c := Set(world[c], key, data)];
    }

    method Goroutine(name: string, op: StripeOp)
      requires Wired(cfg, world)
      modifies this
      ensures world == Apply(cfg, old(world), name, op)
    {
      match op {
        case Write(id, off, data) => WriteStripe(name, id, off, data);
        case Erase(id) => RemoveStripe(name, id);
        case Trim(id, size) => TrimStripe(name, id, size);
      }
    }

    // Start one goroutine per step and wait for all of them; the scheduler picks any order.
    method Goroutines(name: string, ops: seq<StripeOp>)
      requires Wired(cfg, world) && PairwiseIndependent(cfg, ops)
      modifies this
      ensures world == Run(cfg, old(world), name, ops)
    {
      hide Apply, PairwiseIndependent;
      var pending := ops;
      ghost var order: seq<StripeOp> := [];
      while pending != []
        invariant Wired(cfg, world)
        invariant world == Run(cfg, old(world), name, order)
        invariant multiset(order) + multiset(pending) == multiset(ops)
        decreases |pending|
      {
        var i: nat :| i < |pending|;
        var op := pending[i];
        RunAppend(cfg, old(world), name, order, [op]);
        RunCons(cfg, world, name, op, []);
        assert [op] + [] == [op];
        Goroutine(name, op);
        order := order + [op];
        pending := Without(pending, i);
      }
      AnySchedule(cfg, old(world), name, ops, order);
    }

    // ---------- the public calls ----------

    method WriteAt(name: string, off: nat, data: seq<byte>)
      requires Valid()
      modifies this
      ensures Valid()
      ensures world ==
        WriteAtSpec(cfg, old(world), name, off, data, ExtraSlots(cfg.stripeSize, off, |data|, growth))
      ensures OnlyFile(old(world), world, name)
      ensures Overlaid(cfg, old(world), world, name, off, data)
      ensures old(Inv(cfg, world, true)) ==>
        (Inv(cfg, world, true) <==>
           || |Layout(cfg.stripeSize, off, |data|, 0)| <= 100 || Stripe(cfg, old(world), name, 0) != []
           || (data != [] && off < cfg.stripeSize))
    {
      hide Inv, ByteAt, Overlay, PairwiseIndependent, AllLegal, OnlyFile;
      InvFits(cfg, world, false, name);
      ghost var w := world;
      var stripes := StripeLayout(cfg.stripeSize, off, |data|, growth);
      ghost var extra := ExtraSlots(cfg.stripeSize, off, |data|, growth);
      SlotsLegal(cfg, false, off, data, extra);
      ghost var slots := Slots(cfg.stripeSize, off, |data|, extra);
      PieceOpsPermuted(data, stripes, slots);
      PermutedIndependent(cfg, PieceOps(data, slots), PieceOps(data, stripes));
      Goroutines(name, PieceOps(data, stripes));
      AnySchedule(cfg, w, name, PieceOps(data, slots), PieceOps(data, stripes));
      WriteAtKeeps(cfg, w, false, name, off, data, extra);
      if Inv(cfg, w, true) {
        StrictExactly(cfg, w, name, off, data, extra);
      }
      forall p: nat
        ensures ByteAt(cfg, world, name, p) ==
          Overlay(cfg.stripeSize, ByteAt(cfg, w, name, p), off, data, 0, |data|, p)
      {
        WriteAtBytes(cfg, w, name, off, data, extra, p);
      }
    }

    // Copies the reply into the piece's part of dst and returns how many bytes came back. failed is the panic on a
    // reply that does not fit.
    method ReadStripe(name: string, p: Piece, dst: array<byte>) returns (failed: bool, n: nat)
      requires Wired(cfg, world) && p.pos + p.len <= dst.Length
      modifies dst
      ensures failed <==> BufferTooSmall(p, Fetched(cfg, world, name, p))
      ensures !failed ==> n == |Fetched(cfg, world, name, p)|
      ensures forall i :: 0 <= i < dst.Length ==>
        dst[i] == Copied(Fetched(cfg, world, name, p), !failed, p, i, old(dst[i]))
    {
      hide Keys.StripeKey, Range;
      var key := Keys.StripeKey(name, p.id);
      var stripe := StringAt(world[cfg.owner(key)], key);
      var reply := if p.off == 0 && p.len == cfg.stripeSize then stripe else Range(stripe, p.off, p.off + p.len - 1);
      assert reply == Fetched(cfg, world, name, p);
      hide Fetched;
      failed, n := false, |reply|;
      if p.len == 0 {
        // no buffer: the connection allocates one, and only its length is used
        return;
      }
      if p.len < |reply| {
        failed := true;
        return;
      }
      for k := 0 to |reply|
        invariant forall i :: 0 <= i < dst.Length ==>
          dst[i] == (if p.pos <= i < p.pos + k then reply[i - p.pos] else old(dst[i]))
      {
        dst[p.pos + k] := reply[k];
      }
    }

    // Every defined position of [off, off + |dst|) is copied, nothing else in dst changes, no goroutine fails, and the
    // count is that of the defined positions, plus stripe 0 once per zero-valued layout entry.
    method ReadAt(name: string, off: nat, dst: array<byte>) returns (read: nat, failed: bool)
      requires Valid()
      modifies dst
      ensures !failed
      ensures forall i :: 0 <= i < dst.Length ==> dst[i] == Filled(cfg, world, name, off + i, old(dst[i]))
      ensures read == ReadTotal(cfg, growth, world, name, off, dst.Length)
    {
      hide Inv, ByteAt, Fetched, Stripe, StripeOf, OffsetIn, Covered, GoodPiece, CountDefined, SumFetched, Layout,
           StripesFit;
      InvFits(cfg, world, false, name);
      InvWired(cfg, world, false);
      var S := cfg.stripeSize;
      var stripes := StripeLayout(S, off, dst.Length, growth);
      ghost var extra := ExtraSlots(S, off, dst.Length, growth);
      SlotsPermuted(S, off, dst.Length, extra, stripes);
      SumPermuted(cfg, world, name, stripes, Slots(S, off, dst.Length, extra));
      ReadCountIs(cfg, world, name, off, dst.Length, extra);
      read, failed := 0, false;
      var pending := stripes;
      while pending != []
        invariant read + SumFetched(cfg, world, name, pending) == SumFetched(cfg, world, name, stripes)
        invariant forall k :: 0 <= k < |pending| ==> SlotOk(S, off, dst.Length, pending[k])
        invariant forall i :: 0 <= i < dst.Length ==>
          || dst[i] == Filled(cfg, world, name, off + i, old(dst[i]))
          || (dst[i] == old(dst[i]) && Covered(pending, i))
        invariant !failed
        decreases |pending|
      {
        var j: nat :| j < |pending|;
        var p := pending[j];
        ghost var before := dst[..];
        SlotReply(cfg, world, name, off, dst.Length, p);
        var n: nat;
        failed, n := ReadStripe(name, p, dst);
        read := read + n;
        SumWithout(cfg, world, name, pending, j);
        forall i | 0 <= i < dst.Length
          ensures dst[i] == Filled(cfg, world, name, off + i, old(dst[i])) ||
                  (dst[i] == old(dst[i]) && Covered(Without(pending, j), i))
        {
          if p.pos <= i < p.pos + p.len {
            assert ByteAt(cfg, world, name, off + i) == At(Fetched(cfg, world, name, p), i - p.pos);
          } else if Covered(pending, i) {
            CoveredWithout(pending, j, i);
          }
        }
        pending := Without(pending, j);
      }
      assert forall i :: !Covered([], i) by { NothingCovered(); }
      SumOfNone(cfg, world, name);
    }

    // One SMEMBERS per instance, in any order, and the largest id of all of them.
    method SearchLastStripe(name: string) returns (last: int)
      requires Valid()
      ensures last == LastStripe(world, name) >= -1
    {
      hide Inv, Listing, Keys.Atoi;
      last := -1;
      var clients := world.Keys;
      ghost var seen: set<string> := {};
      while clients != {}
        invariant clients + seen == world.Keys && clients !! seen
        invariant forall c, m :: c in seen && m in Listing(world, c, name) ==> Keys.Atoi(m) <= last
        invariant last == -1 || last in ListedIds(world, name)
        decreases |clients|
      {
        AnElement(clients);
        var c :| c in clients;
        var max := MaxId(name, c);
        if max > last {
          last := max;
        }
        clients, seen := clients - {c}, seen + {c};
      }
      ListedNonNegative(cfg, world, false, name);
      assert forall id :: id in ListedIds(world, name) ==> id <= last;
    }

    method MaxId(name: string, c: string) returns (max: int)
      requires Valid() && c in world
      ensures forall m :: m in Listing(world, c, name) ==> Keys.Atoi(m) <= max
      ensures max == -1 || exists m :: m in Listing(world, c, name) && Keys.Atoi(m) == max
    {
      hide Inv, Keys.Atoi;
      max := -1;
      var ids := Members(world[c], Keys.StripesKey(name));
      assert ids == Listing(world, c, name);
      hide Listing;
      ghost var seen: set<string> := {};
      while ids != {}
        invariant ids + seen == Listing(world, c, name)
        invariant forall m :: m in seen ==> Keys.Atoi(m) <= max
        invariant max == -1 || exists m :: m in Listing(world, c, name) && Keys.Atoi(m) == max
        decreases |ids|
      {
        AnElement(ids);
        var m :| m in ids;
        var id := Keys.Atoi(m);
        if id > max {
          max := id;
        }
        ids, seen := ids - {m}, seen + {m};
      }
    }

    method GetSize(name: string) returns (size: nat)
      requires Valid()
      ensures size == Size(cfg, world, name)
      ensures forall p: nat :: p >= size ==> ByteAt(cfg, world, name, p) == None
      ensures size > 0 ==> ByteAt(cfg, world, name, size - 1) != None
    {
      hide Inv, ByteAt, LastStripe, Listing, Keys.StripeKey;
      InvWired(cfg, world, false);
      var last := SearchLastStripe(name);
      SizeMeans(cfg, world, false, name);
      if last < 0 {
        return 0;
      }
      var key := Keys.StripeKey(name, last);
      StartIs(cfg.stripeSize, last);
      size := last * cfg.stripeSize + |StringAt(world[cfg.owner(key)], key)|;
    }

    method Remove(name: string)
      requires Valid()
      modifies this
      ensures Valid()
      ensures world == RemoveSpec(cfg, old(world), name)
      ensures OnlyFile(old(world), world, name)
      ensures forall p: nat :: ByteAt(cfg, world, name, p) == None
      ensures forall c :: c in world ==> Listing(world, c, name) == {}
      ensures old(Inv(cfg, world, true)) ==> Inv(cfg, world, true)
    {
      hide Inv, ByteAt, PairwiseIndependent, AllLegal, LastStripe, Listing;
      var last := SearchLastStripe(name);
      var ops: seq<StripeOp> := [];
      var i := 0;
      while i <= last
        invariant 0 <= i <= last + 1 && ops == EraseOps(0, i - 1)
      {
        ops := ops + [Erase(i)];
        i := i + 1;
      }
      EraseLegal(cfg, false, 0, last);
      InvWired(cfg, world, false);
      RemoveClears(cfg, world, false, name);
      if Inv(cfg, world, true) {
        RemoveClears(cfg, world, true, name);
      }
      Goroutines(name, ops);
    }

    method Resize(name: string, newSize: nat)
      requires Valid()
      modifies this
      ensures Valid()
      ensures world == ResizeSpec(cfg, old(world), name, newSize)
      ensures OnlyFile(old(world), world, name)
      ensures old(Inv(cfg, world, true)) ==> Inv(cfg, world, true)
    {
      hide Inv, ByteAt, PairwiseIndependent, AllLegal, OnlyFile, LastStripe, Listing, LastStripeInfo, Size, Start, Run;
      InvWired(cfg, world, false);
      var S := cfg.stripeSize;
      var curSize := GetSize(name);
      var cur, new_ := LastStripeInfo(S, curSize), LastStripeInfo(S, newSize);
      ResizeKeepsBoth(cfg, world, name, newSize);
      var ops: seq<StripeOp> := [];
      if newSize < curSize {
        InfoMonotone(S, newSize, curSize);
        var id := new_.id + 1;
        while id <= cur.id
          invariant new_.id < id <= cur.id + 1 && ops == EraseOps(new_.id + 1, id - 1)
        {
          ops := ops + [Erase(id)];
          id := id + 1;
        }
        ops := ops + [Trim(new_.id, new_.len)];
        ShrinkLegal(cfg, false, cur, new_);
        assert ops == ShrinkOps(cur, new_);
        Goroutines(name, ops);
      } else if newSize > curSize {
        var id := cur.id + 1;
        while id < new_.id
          invariant cur.id < id && (id <= new_.id || id == cur.id + 1) && ops == Pads(S, cur.id + 1, id - 1)
        {
          ops := ops + [Write(id, S - 1, [0])];
          id := id + 1;
        }
        ops := ops + [Write(new_.id, new_.len - 1, [0])];
        if cur.len < S {
          ops := ops + [Write(cur.id, S - cur.len - 1, [0])];
        }
        GrowBytes(cfg, world, false, name, newSize, 0);
        GrowLegal(cfg, false, cur, new_);
        assert ops == GrowOps(S, cur, new_);
        Goroutines(name, ops);
      }
    }
  }

  lemma ResizeKeepsBoth(cfg: Config, w: World, name: string, newSize: nat)
    requires Inv(cfg, w, false)
    ensures var w' := ResizeSpec(cfg, w, name, newSize);
      Inv(cfg, w', false) && OnlyFile(w, w', name) && (Inv(cfg, w, true) ==> Inv(cfg, w', true))
  {
    hide Inv, OnlyFile, ResizeSpec;
    ResizeKeeps(cfg, w, false, name, newSize);
    if Inv(cfg, w, true) {
      ResizeKeeps(cfg, w, true, name, newSize);
    }
  }

  lemma NothingCovered()
    ensures forall i :: !Covered([], i)
  {
  }

  lemma SumOfNone(cfg: Config, w: World, name: string)
    ensures SumFetched(cfg, w, name, []) == 0
  {
  }

  lemma SlotReply(cfg: Config, w: World, name: string, off: nat, n: nat, p: Piece)
    requires StripesFit(cfg, w, name) && cfg.stripeSize >= 1 && SlotOk(cfg.stripeSize, off, n, p)
    ensures p.pos + p.len <= n && !BufferTooSmall(p, Fetched(cfg, w, name, p))
    ensures forall q: nat :: off + p.pos <= q < off + p.pos + p.len ==>
      ByteAt(cfg, w, name, q) == At(Fetched(cfg, w, name, p), q - off - p.pos)
  {
    hide StripesFit, Fetched, ByteAt, StripeOf, OffsetIn;
    if p != NoPiece {
      PieceReply(cfg, w, name, off, n, p);
    }
  }

  lemma ListedNonNegative(cfg: Config, w: World, strict: bool, name: string)
    requires Inv(cfg, w, strict)
    ensures forall id :: id in ListedIds(w, name) ==> id >= 0
    ensures LastStripe(w, name) >= -1
  {
    LastStripeMeans(cfg, w, strict, name);
    forall c, m | c in w && m in Listing(w, c, name)
      ensures Keys.Atoi(m) >= 0
    {
      assert ListedOk(cfg, w, strict, c, name, m);
    }
  }

  lemma IndependentSymmetric(cfg: Config, a: StripeOp, b: StripeOp)
    requires Independent(cfg, a, b)
    ensures Independent(cfg, b, a)
  {
  }

  lemma {:induction false} PermutedIndependent(cfg: Config, a: seq<StripeOp>, b: seq<StripeOp>)
    requires PairwiseIndependent(cfg, a) && multiset(a) == multiset(b)
    ensures PairwiseIndependent(cfg, b)
  {
    forall i, j | 0 <= i < j < |b|
      ensures Independent(cfg, b[i], b[j])
    {
      TwoPlaces(a, b, i, j);
      var k, l :| 0 <= k < |a| && 0 <= l < |a| && k != l && a[k] == b[i] && a[l] == b[j];
      if k < l {
        assert Independent(cfg, a[k], a[l]);
      } else {
        assert Independent(cfg, a[l], a[k]);
        IndependentSymmetric(cfg, a[l], a[k]);
      }
    }
  }

  // A place of a sequence has a place in any permutation of it.
  lemma Place<T>(a: seq<T>, b: seq<T>, i: nat) returns (k: nat)
    requires i < |b| && multiset(a) == multiset(b)
    ensures k < |a| && a[k] == b[i]
  {
    assert b[i] in multiset(a);
    k :| 0 <= k < |a| && a[k] == b[i];
  }

  lemma WithoutBoth<T>(a: seq<T>, b: seq<T>, k: nat, i: nat)
    requires k < |a| && i < |b| && a[k] == b[i] && multiset(a) == multiset(b)
    ensures multiset(Without(a, k)) == multiset(Without(b, i))
  {
    hide Without;
    assert multiset(Without(a, k)) == multiset(a) - multiset{a[k]};
    assert multiset(Without(b, i)) == multiset(b) - multiset{b[i]};
  }

  // Two places have two places.
  lemma TwoPlaces<T>(a: seq<T>, b: seq<T>, i: nat, j: nat)
    requires i < j < |b| && multiset(a) == multiset(b)
    ensures exists k, l :: 0 <= k < |a| && 0 <= l < |a| && k != l && a[k] == b[i] && a[l] == b[j]
  {
    var k := Place(a, b, i);
    WithoutBoth(a, b, k, i);
    var l' := Place(Without(a, k), Without(b, i), j - 1);
    var l := if l' < k then l' else l' + 1;
    assert Without(b, i)[j - 1] == b[j];
    assert a[l] == b[j] && l != k;
  }
}
