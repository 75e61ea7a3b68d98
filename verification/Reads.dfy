// ReadAt: what each goroutine copies into its part of the buffer, and what the total is.
module Reads {
  import opened Basics
  import opened Redis
  import opened Striping
  import opened Store
  import opened Content
  import opened Calls

  // The bytes one goroutine gets from GET or GETRANGE.
  function Fetched(cfg: Config, w: World, name: string, p: Piece): seq<byte>
  {
    var stripe := Stripe(cfg, w, name, p.id);
    if p.off == 0 && p.len == cfg.stripeSize then stripe else Range(stripe, p.off, p.off + p.len - 1)
  }

  // The reply goes into the piece's part of the buffer; a zero-valued entry has none: its reply is only counted.
  // A reply longer than the buffer is the protocol error "destination buffer is too small".
  predicate BufferTooSmall(p: Piece, reply: seq<byte>) { p.len > 0 && |reply| > p.len }

  // How many of the n positions from base on hold a byte.
  function CountDefined(cfg: Config, w: World, name: string, base: nat, n: nat): nat
    requires cfg.stripeSize >= 1
  {
    if n == 0 then 0
    else CountDefined(cfg, w, name, base, n - 1) + (if ByteAt(cfg, w, name, base + n - 1) != None then 1 else 0)
  }

  lemma {:induction false} CountSplit(cfg: Config, w: World, name: string, base: nat, m: nat, n: nat)
    requires cfg.stripeSize >= 1
    ensures CountDefined(cfg, w, name, base, m + n) ==
            CountDefined(cfg, w, name, base, m) + CountDefined(cfg, w, name, base + m, n)
  {
    hide ByteAt;
    if n > 0 {
      CountSplit(cfg, w, name, base, m, n - 1);
    }
  }

  lemma {:induction false} CountInStripe(cfg: Config, w: World, name: string, base: nat, n: nat)
    requires cfg.stripeSize >= 1 && OffsetIn(cfg.stripeSize, base) + n <= cfg.stripeSize
    ensures CountDefined(cfg, w, name, base, n) ==
      Max(0, Min(OffsetIn(cfg.stripeSize, base) + n, |Stripe(cfg, w, name, StripeOf(cfg.stripeSize, base))|) -
             OffsetIn(cfg.stripeSize, base))
  {
    hide Stripe, StripeOf, OffsetIn;
    if n > 0 {
      CountInStripe(cfg, w, name, base, n - 1);
      SameStripe(cfg.stripeSize, base, base + n - 1);
    }
  }

  // One goroutine: its reply always fits, holds as many bytes as its positions define, and puts each where it belongs.
  lemma PieceReply(cfg: Config, w: World, name: string, off: nat, n: nat, p: Piece)
    requires StripesFit(cfg, w, name) && cfg.stripeSize >= 1 && GoodPiece(cfg.stripeSize, off, n, p)
    ensures var reply := Fetched(cfg, w, name, p);
      && !BufferTooSmall(p, reply)
      && |reply| == CountDefined(cfg, w, name, off + p.pos, p.len) <= p.len
      && (forall q: nat :: off + p.pos <= q < off + p.pos + p.len ==>
            ByteAt(cfg, w, name, q) == At(reply, q - off - p.pos))
  {
    hide Stripe, StripeOf, OffsetIn, Range;
    var S := cfg.stripeSize;
    var base := off + p.pos;
    var stripe, reply := Stripe(cfg, w, name, p.id), Fetched(cfg, w, name, p);
    CountInStripe(cfg, w, name, base, p.len);
    RangeAt(stripe, p.off, p.len);
    forall q: nat | base <= q < base + p.len
      ensures ByteAt(cfg, w, name, q) == At(reply, q - base)
    {
      SameStripe(S, base, q);
      RangeAt(stripe, p.off, p.len);
    }
  }

  lemma RangeAt(s: seq<byte>, o: nat, len: nat)
    requires len >= 1
    ensures |Range(s, o, o + len - 1)| == Max(0, Min(o + len, |s|) - o)
    ensures forall j: nat :: o <= j < o + len ==> At(s, j) == At(Range(s, o, o + len - 1), j - o)
  {
  }

  // ---------- totals ----------

  function SumFetched(cfg: Config, w: World, name: string, ps: seq<Piece>): nat
  {
    if ps == [] then 0 else |Fetched(cfg, w, name, ps[0])| + SumFetched(cfg, w, name, ps[1..])
  }

  lemma {:induction false} SumAppend(cfg: Config, w: World, name: string, a: seq<Piece>, b: seq<Piece>)
    ensures SumFetched(cfg, w, name, a + b) == SumFetched(cfg, w, name, a) + SumFetched(cfg, w, name, b)
    decreases |a|
  {
    hide Fetched;
    if a == [] {
      assert a + b == b;
    } else {
      assert (a + b)[1..] == a[1..] + b;
      SumAppend(cfg, w, name, a[1..], b);
    }
  }

  lemma SumWithout(cfg: Config, w: World, name: string, ps: seq<Piece>, i: nat)
    requires i < |ps|
    ensures SumFetched(cfg, w, name, ps) == |Fetched(cfg, w, name, ps[i])| + SumFetched(cfg, w, name, Without(ps, i))
  {
    hide Fetched;
    assert ps == ps[..i] + ([ps[i]] + ps[i + 1..]);
    SumAppend(cfg, w, name, ps[..i], [ps[i]] + ps[i + 1..]);
    SumAppend(cfg, w, name, ps[..i], ps[i + 1..]);
    assert ([ps[i]] + ps[i + 1..])[1..] == ps[i + 1..];
  }

  lemma {:induction false} SumLayout(cfg: Config, w: World, name: string, off: nat, n: nat, pos: nat)
    requires StripesFit(cfg, w, name) && cfg.stripeSize >= 1 && pos <= n
    ensures SumFetched(cfg, w, name, Layout(cfg.stripeSize, off, n, pos)) ==
            CountDefined(cfg, w, name, off + pos, n - pos)
    decreases n - pos
  {
    hide Stripe, StripeOf, OffsetIn, ByteAt, Fetched, StripesFit;
    var S := cfg.stripeSize;
    if pos < n {
      var len := PieceLen(S, off, n, pos);
      var first := Piece(StripeOf(S, off + pos), OffsetIn(S, off + pos), pos, len);
      var rest := Layout(S, off, n, pos + len);
      assert Layout(S, off, n, pos) == [first] + rest;
      assert ([first] + rest)[1..] == rest;
      PieceReply(cfg, w, name, off, n, first);
      SumLayout(cfg, w, name, off, n, pos + len);
      CountSplit(cfg, w, name, off + pos, len, n - pos - len);
    }
  }

  lemma {:induction false} SumExtra(cfg: Config, w: World, name: string, extra: nat)
    requires cfg.stripeSize >= 1
    ensures SumFetched(cfg, w, name, seq(extra, _ => NoPiece)) == extra * |Stripe(cfg, w, name, 0)|
  {
    hide Stripe, Range;
    if extra > 0 {
      var s := seq(extra, _ => NoPiece);
      assert s[1..] == seq(extra - 1, _ => NoPiece);
      SumExtra(cfg, w, name, extra - 1);
      assert Fetched(cfg, w, name, NoPiece) == Stripe(cfg, w, name, 0);
      assert extra * |Stripe(cfg, w, name, 0)| == (extra - 1) * |Stripe(cfg, w, name, 0)| + |Stripe(cfg, w, name, 0)|;
    }
  }

  // What the atomic counter ends at: the positions that hold a byte, plus stripe 0 once for every zero-valued entry.
  function ReadCount(cfg: Config, w: World, name: string, off: nat, n: nat, extra: nat): nat
    requires cfg.stripeSize >= 1
  {
    SumFetched(cfg, w, name, Slots(cfg.stripeSize, off, n, extra))
  }

  lemma ReadCountIs(cfg: Config, w: World, name: string, off: nat, n: nat, extra: nat)
    requires StripesFit(cfg, w, name) && cfg.stripeSize >= 1
    ensures ReadCount(cfg, w, name, off, n, extra) ==
            CountDefined(cfg, w, name, off, n) + extra * |Stripe(cfg, w, name, 0)|
    ensures ReadCount(cfg, w, name, off, n, extra) == CountDefined(cfg, w, name, off, n) <==>
            extra == 0 || ByteAt(cfg, w, name, 0) == None
  {
    hide Stripe, Fetched, StripesFit;
    SumAppend(cfg, w, name, Layout(cfg.stripeSize, off, n, 0), seq(extra, _ => NoPiece));
    SumLayout(cfg, w, name, off, n, 0);
    SumExtra(cfg, w, name, extra);
    assert extra == 0 || |Stripe(cfg, w, name, 0)| == 0 <==> extra * |Stripe(cfg, w, name, 0)| == 0;
  }

  // On a hole-free file the count is the length of what can be read.
  lemma {:induction false} CountFlat(cfg: Config, w: World, name: string, s: seq<byte>, off: nat, n: nat)
    requires cfg.stripeSize >= 1 && forall p: nat :: ByteAt(cfg, w, name, p) == At(s, p)
    ensures CountDefined(cfg, w, name, off, n) == Max(0, Min(n, |s| - off))
  {
    hide ByteAt;
    if n > 0 {
      CountFlat(cfg, w, name, s, off, n - 1);
      assert ByteAt(cfg, w, name, off + n - 1) == At(s, off + n - 1);
    }
  }

  lemma {:induction false} SumPermuted(cfg: Config, w: World, name: string, a: seq<Piece>, b: seq<Piece>)
    requires multiset(a) == multiset(b)
    ensures SumFetched(cfg, w, name, a) == SumFetched(cfg, w, name, b)
    decreases |a|
  {
    hide Fetched;
    if a == [] {
      assert |multiset(b)| == |b|;
    } else {
      assert a[0] in multiset(b);
      var i :| 0 <= i < |b| && b[i] == a[0];
      assert multiset(Without(a, 0)) == multiset(a) - multiset{a[0]};
      assert multiset(Without(b, i)) == multiset(b) - multiset{b[i]};
      SumPermuted(cfg, w, name, Without(a, 0), Without(b, i));
      SumWithout(cfg, w, name, a, 0);
      SumWithout(cfg, w, name, b, i);
    }
  }

  // Some piece still to be read covers byte i of the buffer.
  ghost predicate Covered(ps: seq<Piece>, i: int)
  {
    exists k :: 0 <= k < |ps| && ps[k].pos <= i < ps[k].pos + ps[k].len
  }

  lemma {:induction false} LayoutCovers(S: nat, off: nat, n: nat, pos: nat, i: nat)
    requires S >= 1 && pos <= i < n
    ensures Covered(Layout(S, off, n, pos), i)
    decreases n - pos
  {
    hide StripeOf, OffsetIn;
    var ps, len := Layout(S, off, n, pos), PieceLen(S, off, n, pos);
    if i < pos + len {
      assert ps[0].pos <= i < ps[0].pos + ps[0].len;
    } else {
      LayoutCovers(S, off, n, pos + len, i);
      var rest := Layout(S, off, n, pos + len);
      var k :| 0 <= k < |rest| && rest[k].pos <= i < rest[k].pos + rest[k].len;
      assert ps[k + 1] == rest[k];
    }
  }

  ghost predicate SlotOk(S: nat, off: nat, n: nat, p: Piece)
    requires S >= 1
  {
    p == NoPiece || GoodPiece(S, off, n, p)
  }

  // What any permutation of the slots keeps.
  lemma SlotsPermuted(S: nat, off: nat, n: nat, extra: nat, ps: seq<Piece>)
    requires S >= 1 && multiset(ps) == multiset(Slots(S, off, n, extra))
    ensures forall k :: 0 <= k < |ps| ==> SlotOk(S, off, n, ps[k])
    ensures forall i :: 0 <= i < n ==> Covered(ps, i)
  {
    hide StripeOf, OffsetIn, GoodPiece;
    var slots, layout := Slots(S, off, n, extra), Layout(S, off, n, 0);
    LayoutPieces(S, off, n, 0);
    forall k | 0 <= k < |ps|
      ensures SlotOk(S, off, n, ps[k])
    {
      assert ps[k] in multiset(slots);
      var l :| 0 <= l < |slots| && slots[l] == ps[k];
      assert l < |layout| ==> slots[l] == layout[l];
    }
    forall i | 0 <= i < n
      ensures Covered(ps, i)
    {
      LayoutCovers(S, off, n, 0, i);
      var k :| 0 <= k < |layout| && layout[k].pos <= i < layout[k].pos + layout[k].len;
      assert slots[k] == layout[k];
      assert layout[k] in multiset(ps);
      var l :| 0 <= l < |ps| && ps[l] == layout[k];
    }
  }

  lemma CoveredWithout(ps: seq<Piece>, j: nat, i: int)
    requires j < |ps| && Covered(ps, i) && !(ps[j].pos <= i < ps[j].pos + ps[j].len)
    ensures Covered(Without(ps, j), i)
  {
    var k :| 0 <= k < |ps| && ps[k].pos <= i < ps[k].pos + ps[k].len;
    var r := Without(ps, j);
    assert r[if k < j then k else k - 1] == ps[k];
  }

  // The buffer after a read: defined positions overwrite it, the others keep what it held.
  function Filled(cfg: Config, w: World, name: string, q: nat, old_: byte): byte
    requires cfg.stripeSize >= 1
  {
    match ByteAt(cfg, w, name, q) { case Some(b) => b case None => old_ }
  }
}
