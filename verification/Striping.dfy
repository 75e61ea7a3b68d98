// How a range of bytes is cut into stripes.
module Striping {
  import opened Basics

  // One goroutine's share of a call: bytes [pos, pos + len) of the caller's buffer go to, or come from,
  // offset off of stripe id. A Go slice is modelled by its position and length in the buffer it shares.
  datatype Piece = Piece(id: int, off: nat, pos: nat, len: nat)

  // The zero value that make([]stripeInfo, n) fills a slice with.
  const NoPiece := Piece(0, 0, 0, 0)

  // ---------- divmod, and its inverse ----------

  // The stripe that holds position p, and p's offset in it: p / S and p % S, computed by repeated subtraction so that
  // proofs need no nonlinear arithmetic (DivModIs).
  function StripeOf(S: nat, p: nat): nat
    requires S >= 1
    decreases p
  {
    if p < S then 0 else 1 + StripeOf(S, p - S)
  }

  function OffsetIn(S: nat, p: nat): (o: nat)
    requires S >= 1
    ensures o < S && o <= p
    decreases p
  {
    if p < S then p else OffsetIn(S, p - S)
  }

  // First position of stripe id: id * S.
  function Start(S: nat, id: nat): nat
  {
    if id == 0 then 0 else Start(S, id - 1) + S
  }

  lemma {:induction false} StartIs(S: nat, id: nat)
    ensures Start(S, id) == id * S
  {
    if id > 0 {
      StartIs(S, id - 1);
      assert id * S == (id - 1) * S + S;
    }
  }

  lemma {:induction false} MultipleAtLeast(S: nat, k: nat)
    requires k >= 1
    ensures k * S >= S
  {
    if k > 1 {
      MultipleAtLeast(S, k - 1);
      assert k * S == (k - 1) * S + S;
    }
  }

  lemma SmallMultiple(S: int, d: int)
    requires S >= 1 && -S < d * S < S
    ensures d == 0
  {
    if d > 0 {
      MultipleAtLeast(S, d);
    } else if d < 0 {
      assert (-d) * S == -(d * S);
      MultipleAtLeast(S, -d);
    }
  }

  lemma DivStep(S: nat, p: nat)
    requires 1 <= S <= p
    ensures p / S == (p - S) / S + 1 && p % S == (p - S) % S
  {
    var q, r, q', r' := p / S, p % S, (p - S) / S, (p - S) % S;
    assert p == q * S + r && p - S == q' * S + r';
    assert (q - q' - 1) * S == q * S - q' * S - S;
    SmallMultiple(S, q - q' - 1);
  }

  lemma {:induction false} DivModIs(S: nat, p: nat)
    requires S >= 1
    ensures StripeOf(S, p) == p / S && OffsetIn(S, p) == p % S
    decreases p
  {
    if p >= S {
      DivModIs(S, p - S);
      DivStep(S, p);
    }
  }

  lemma {:induction false} Split(S: nat, p: nat)
    requires S >= 1
    ensures p == Start(S, StripeOf(S, p)) + OffsetIn(S, p)
    decreases p
  {
    if p >= S {
      Split(S, p - S);
    }
  }

  lemma {:induction false} Join(S: nat, id: nat, j: nat)
    requires S >= 1 && j < S
    ensures StripeOf(S, Start(S, id) + j) == id && OffsetIn(S, Start(S, id) + j) == j
  {
    if id > 0 {
      Join(S, id - 1, j);
    }
  }

  lemma {:induction false} StartMonotone(S: nat, id: nat, id': nat)
    requires id < id'
    ensures Start(S, id) + S <= Start(S, id')
    decreases id'
  {
    if id < id' - 1 {
      StartMonotone(S, id, id' - 1);
    }
  }

  // How far apart two positions are, from their stripes and offsets.
  lemma Compare(S: nat, p: nat, q: nat)
    requires S >= 1
    ensures StripeOf(S, p) == StripeOf(S, q) ==> p - q == OffsetIn(S, p) - OffsetIn(S, q)
    ensures StripeOf(S, p) < StripeOf(S, q) ==> p + (S - OffsetIn(S, p)) <= q - OffsetIn(S, q)
  {
    Split(S, p);
    Split(S, q);
    if StripeOf(S, p) < StripeOf(S, q) {
      StartMonotone(S, StripeOf(S, p), StripeOf(S, q));
    }
  }

  // The positions of the stripe of base are those from its start up to the next start.
  lemma SameStripe(S: nat, base: nat, p: nat)
    requires S >= 1
    ensures StripeOf(S, p) == StripeOf(S, base) ==> p - base == OffsetIn(S, p) - OffsetIn(S, base)
    ensures StripeOf(S, p) == StripeOf(S, base) <==>
      base - OffsetIn(S, base) <= p < base + (S - OffsetIn(S, base))
  {
    Compare(S, p, base);
    Compare(S, base, p);
  }

  // ---------- stripeLayout ----------

  // The pieces of an n-byte buffer placed at offset off, from byte pos of the buffer on.
  function Layout(S: nat, off: nat, n: nat, pos: nat): seq<Piece>
    requires S >= 1
    decreases n - pos
  {
    if pos >= n then []
    else
      var len := PieceLen(S, off, n, pos);
      [Piece(StripeOf(S, off + pos), OffsetIn(S, off + pos), pos, len)] + Layout(S, off, n, pos + len)
  }

  lemma LayoutCons(S: nat, off: nat, n: nat, pos: nat)
    requires S >= 1 && pos < n
    ensures var len := PieceLen(S, off, n, pos);
      Layout(S, off, n, pos) ==
      [Piece(StripeOf(S, off + pos), OffsetIn(S, off + pos), pos, len)] + Layout(S, off, n, pos + len)
  {
    hide StripeOf, OffsetIn, PieceLen;
  }

  lemma LayoutNil(S: nat, off: nat, n: nat, pos: nat)
    requires S >= 1 && pos >= n
    ensures Layout(S, off, n, pos) == []
  {
  }

  // A piece ends with the buffer or with its stripe.
  function PieceLen(S: nat, off: nat, n: nat, pos: nat): (len: nat)
    requires S >= 1 && pos < n
    ensures 1 <= len && pos + len <= n && OffsetIn(S, off + pos) + len <= S
  {
    Min(n - pos, S - OffsetIn(S, off + pos))
  }

  predicate GoodPiece(S: nat, off: nat, n: nat, p: Piece)
    requires S >= 1
  {
    && 0 < p.len && p.off + p.len <= S && p.pos + p.len <= n
    && p.id == StripeOf(S, off + p.pos) && p.off == OffsetIn(S, off + p.pos)
  }

  // After a piece that does not finish the buffer, the next one starts the next stripe.
  lemma NextPiece(S: nat, off: nat, n: nat, pos: nat)
    requires S >= 1 && pos < n
    ensures var len := PieceLen(S, off, n, pos);
      pos + len < n ==>
        && OffsetIn(S, off + pos) + len == S
        && StripeOf(S, off + pos + len) == StripeOf(S, off + pos) + 1
        && OffsetIn(S, off + pos + len) == 0
  {
    Split(S, off + pos);
    var len := PieceLen(S, off, n, pos);
    if pos + len < n {
      Join(S, StripeOf(S, off + pos) + 1, 0);
      assert off + pos + len == Start(S, StripeOf(S, off + pos) + 1) + 0;
    }
  }

  lemma {:induction false} LayoutPieces(S: nat, off: nat, n: nat, pos: nat)
    requires S >= 1 && pos <= n
    ensures var ps := Layout(S, off, n, pos);
      && (forall i :: 0 <= i < |ps| ==> GoodPiece(S, off, n, ps[i]) && ps[i].pos >= pos)
      && (ps != [] ==> ps[0].id == StripeOf(S, off + pos))
      && (forall i, j :: 0 <= i < j < |ps| ==> ps[i].id < ps[j].id)
    decreases n - pos
  {
    hide StripeOf, OffsetIn, Layout;
    if pos >= n {
      LayoutNil(S, off, n, pos);
    } else {
      NextPiece(S, off, n, pos);
      LayoutCons(S, off, n, pos);
      var len := PieceLen(S, off, n, pos);
      var ps, rest := Layout(S, off, n, pos), Layout(S, off, n, pos + len);
      LayoutPieces(S, off, n, pos + len);
      assert ps == [ps[0]] + rest;
      assert forall i :: 0 < i < |ps| ==> ps[i] == rest[i - 1];
      assert forall i :: 0 <= i < |rest| ==> rest[0].id <= rest[i].id;
    }
  }
}
