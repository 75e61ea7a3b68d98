// The file handle: cursor, scalar and vector reads and writes, seeking and truncation.
module MemFiles {
  import opened Basics
  import opened Redis
  import opened Striping
  import opened Store
  import opened Content
  import opened Calls
  import opened Resize
  import opened Reads
  import opened Files
  import opened DataStores

  // End of file, and the panic that a negative offset raises.
  datatype IOError = NoError | EOF | NegativeOffset

  datatype SeekError = SeekOk | InvalidWhence | NegativeLocation

  // ---------- vectors ----------

  function Concat(datav: seq<seq<byte>>): seq<byte>
  {
    if datav == [] then [] else datav[0] + Concat(datav[1..])
  }

  lemma {:induction false} ConcatSnoc(datav: seq<seq<byte>>, data: seq<byte>)
    ensures Concat(datav + [data]) == Concat(datav) + data
    decreases |datav|
  {
    if datav == [] {
      assert datav + [data] == [data];
      assert [data][1..] == [];
    } else {
      assert (datav + [data])[1..] == datav[1..] + [data];
      ConcatSnoc(datav[1..], data);
    }
  }

  // Writing b right behind a is writing a + b.
  lemma OverlayConcat(S: nat, old_: Option<byte>, off: nat, a: seq<byte>, b: seq<byte>, p: nat)
    requires S >= 1
    ensures Overlay(S, Overlay(S, old_, off, a, 0, |a|, p), off + |a|, b, 0, |b|, p) ==
            Overlay(S, old_, off, a + b, 0, |a + b|, p)
  {
    hide StripeOf, OffsetIn;
    SameStripe(S, off, p);
    SameStripe(S, off + |a|, p);
    SameStripe(S, off + |a|, off);
  }

  function Total(lens: seq<nat>): nat
  {
    if lens == [] then 0 else lens[0] + Total(lens[1..])
  }

  lemma {:induction false} TotalSnoc(lens: seq<nat>, len: nat)
    ensures Total(lens + [len]) == Total(lens) + len
    decreases |lens|
  {
    if lens == [] {
      assert lens + [len] == [len];
      assert [len][1..] == [];
    } else {
      assert (lens + [len])[1..] == lens[1..] + [len];
      TotalSnoc(lens[1..], len);
    }
  }

  // What readVecAt returns, given how many bytes a read of n bytes at a position reports: it stops at the first buffer
  // that is not filled. visited is the number of buffers it got to.
  datatype VecResult = VecResult(n: nat, eof: bool, visited: nat)

  type Counter = (nat, nat) -> nat

  function VecRead(count: Counter, lens: seq<nat>, off: nat): (r: VecResult)
    ensures r.visited <= |lens| && (!r.eof ==> r.visited == |lens|)
    decreases |lens|
  {
    if lens == [] then VecResult(0, false, 0)
    else
      var c := if lens[0] == 0 then 0 else count(off, lens[0]);
      if c < lens[0] then VecResult(c, true, 1)
      else
        var r := VecRead(count, lens[1..], off + c);
        VecResult(c + r.n, r.eof, r.visited + 1)
  }

  // Where the read into buffer i starts.
  function VecOffset(count: Counter, lens: seq<nat>, off: nat, i: nat): nat
    requires i <= |lens|
    decreases i
  {
    if i == 0 then off
    else
      var at := VecOffset(count, lens, off, i - 1);
      at + (if lens[i - 1] == 0 then 0 else count(at, lens[i - 1]))
  }

  // The counts that ReadAt reports, and those of the bytes that are there.
  function Reported(cfg: Config, growth: nat -> nat, w: World, name: string): Counter
    requires cfg.stripeSize >= 1
  {
    (off: nat, n: nat) => ReadTotal(cfg, growth, w, name, off, n)
  }

  function Present(cfg: Config, w: World, name: string): Counter
    requires cfg.stripeSize >= 1
  {
    (off: nat, n: nat) => CountDefined(cfg, w, name, off, n)
  }

  // Buffers of at most 100 stripes each, or a file without a first byte: every reported count is right.
  ghost predicate RightCounts(cfg: Config, w: World, name: string, lens: seq<nat>)
    requires cfg.stripeSize >= 1
  {
    ByteAt(cfg, w, name, 0) == None ||
    forall i, off :: 0 <= i < |lens| ==> |Layout(cfg.stripeSize, off, lens[i], 0)| <= 100
  }

  lemma {:induction false} VecReadReported(cfg: Config, growth: nat -> nat, w: World, name: string,
                                           lens: seq<nat>, off: nat)
    requires StripesFit(cfg, w, name) && cfg.stripeSize >= 1 && RightCounts(cfg, w, name, lens)
    ensures VecRead(Reported(cfg, growth, w, name), lens, off) == VecRead(Present(cfg, w, name), lens, off)
    decreases |lens|
  {
    hide ByteAt, CountDefined, ReadTotal, Layout, StripesFit;
    if lens != [] {
      ReadTotalExact(cfg, growth, w, name, off, lens[0]);
      assert RightCounts(cfg, w, name, lens[1..]);
      var c := if lens[0] == 0 then 0 else CountDefined(cfg, w, name, off, lens[0]);
      VecReadReported(cfg, growth, w, name, lens[1..], off + c);
    }
  }

  lemma {:induction false} CountAtMost(cfg: Config, w: World, name: string, off: nat, n: nat)
    requires cfg.stripeSize >= 1
    ensures CountDefined(cfg, w, name, off, n) <= n
  {
    hide ByteAt;
    if n > 0 {
      CountAtMost(cfg, w, name, off, n - 1);
    }
  }

  lemma NoCount(cfg: Config, w: World, name: string, off: nat)
    requires cfg.stripeSize >= 1
    ensures CountDefined(cfg, w, name, off, 0) == 0
  {
  }

  lemma VecStep(count: Counter, lens: seq<nat>, off: nat)
    requires lens != []
    ensures Total(lens) == lens[0] + Total(lens[1..])
    ensures var c := if lens[0] == 0 then 0 else count(off, lens[0]);
      VecRead(count, lens, off) ==
        if c < lens[0] then VecResult(c, true, 1) else Resume(c, 1, VecRead(count, lens[1..], off + c))
  {
  }

  lemma TotalOfPrefix(lens: seq<nat>, k: nat)
    requires k <= |lens|
    ensures k == 0 ==> Total(lens[..k]) == 0
    ensures k > 0 ==> Total(lens[..k]) == lens[0] + Total(lens[1..][..k - 1])
  {
    if k > 0 {
      assert lens[..k][1..] == lens[1..][..k - 1];
    }
  }

  // On any file, holes included, the vector read counts the defined positions of the buffers it visited; so it agrees
  // with one read over all buffers exactly when no byte lies behind the first buffer that was not filled.
  lemma {:induction false} VecReadCounts(cfg: Config, w: World, name: string, lens: seq<nat>, off: nat)
    requires cfg.stripeSize >= 1
    ensures var r := VecRead(Present(cfg, w, name), lens, off);
      var seen := Total(lens[..r.visited]);
      && seen <= Total(lens)
      && r.n == CountDefined(cfg, w, name, off, seen)
      && r.n + CountDefined(cfg, w, name, off + seen, Total(lens) - seen) ==
         CountDefined(cfg, w, name, off, Total(lens))
      && (r.eof <==> CountDefined(cfg, w, name, off, Total(lens)) < Total(lens))
    decreases |lens|
  {
    hide ByteAt, CountDefined, Total, VecRead;
    NoCount(cfg, w, name, off);
    if lens != [] {
      var len, rest := lens[0], lens[1..];
      VecStep(Present(cfg, w, name), lens, off);
      TotalOfPrefix(lens, VecRead(Present(cfg, w, name), lens, off).visited);
      TotalOfPrefix(rest, 0);
      var c := CountDefined(cfg, w, name, off, len);
      CountAtMost(cfg, w, name, off, len);
      CountSplit(cfg, w, name, off, len, Total(rest));
      CountAtMost(cfg, w, name, off + len, Total(rest));
      if c == len {
        VecReadCounts(cfg, w, name, rest, off + len);
        var seen := Total(rest[..VecRead(Present(cfg, w, name), rest, off + len).visited]);
        CountSplit(cfg, w, name, off, len, seen);
        CountSplit(cfg, w, name, off, len + seen, Total(rest) - seen);
      }
    } else {
      VecEnd(Present(cfg, w, name), lens, off);
      TotalOfPrefix(lens, 0);
    }
  }

  // On a hole-free file a vector read returns what one read of the total length returns, empty buffers included.
  lemma VecReadFlat(cfg: Config, w: World, name: string, s: seq<byte>, lens: seq<nat>, off: nat)
    requires cfg.stripeSize >= 1 && IsFlat(cfg, w, name, s)
    ensures var r := VecRead(Present(cfg, w, name), lens, off);
      && r.n == CountDefined(cfg, w, name, off, Total(lens)) == Max(0, Min(Total(lens), |s| - off))
      && (r.eof <==> r.n < Total(lens))
  {
    hide ByteAt;
    VecReadCounts(cfg, w, name, lens, off);
    var seen := Total(lens[..VecRead(Present(cfg, w, name), lens, off).visited]);
    CountFlat(cfg, w, name, s, off, Total(lens));
    CountFlat(cfg, w, name, s, off, seen);
    CountFlat(cfg, w, name, s, off + seen, Total(lens) - seen);
    VecReadStops(cfg, w, name, lens, off);
  }

  // When it stops early, the buffers it visited are not full.
  lemma {:induction false} VecReadStops(cfg: Config, w: World, name: string, lens: seq<nat>, off: nat)
    requires cfg.stripeSize >= 1
    ensures var r := VecRead(Present(cfg, w, name), lens, off);
      if r.eof then r.n < Total(lens[..r.visited]) else r.n == Total(lens) && r.visited == |lens|
    decreases |lens|
  {
    hide ByteAt, CountDefined;
    NoCount(cfg, w, name, off);
    if lens != [] {
      var len, rest := lens[0], lens[1..];
      var c := CountDefined(cfg, w, name, off, len);
      CountAtMost(cfg, w, name, off, len);
      if c < len {
        assert lens[..1] == [len] && [len][1..] == [];
      } else {
        VecReadStops(cfg, w, name, rest, off + len);
        var r := VecRead(Present(cfg, w, name), rest, off + len);
        assert lens[..r.visited + 1][1..] == rest[..r.visited];
      }
    }
  }

  // Until then every buffer is read at its own place in the whole range.
  lemma {:induction false} VecOffsets(cfg: Config, w: World, name: string, lens: seq<nat>, off: nat, i: nat)
    requires cfg.stripeSize >= 1 && i < VecRead(Present(cfg, w, name), lens, off).visited
    ensures VecOffset(Present(cfg, w, name), lens, off, i) == off + Total(lens[..i])
    ensures VecRead(Present(cfg, w, name), lens[i..], off + Total(lens[..i])).visited ==
            VecRead(Present(cfg, w, name), lens, off).visited - i
    decreases i
  {
    hide CountDefined, VecRead, VecOffset;
    NoCount(cfg, w, name, off + Total(lens[..if i == 0 then 0 else i - 1]));
    VecStart(Present(cfg, w, name), lens, off);
    if i == 0 {
      assert lens[..0] == [] && lens[0..] == lens;
    } else {
      VecOffsets(cfg, w, name, lens, off, i - 1);
      assert lens[..i] == lens[..i - 1] + [lens[i - 1]];
      TotalSnoc(lens[..i - 1], lens[i - 1]);
      var at := off + Total(lens[..i - 1]);
      VecRound(Present(cfg, w, name), lens, off, i - 1, at);
      CountAtMost(cfg, w, name, at, lens[i - 1]);
    }
  }

  // ---------- the handle ----------

  class MemFile {
    const store: DataStore
    const path: string
    var offset: int

    ghost predicate Valid()
      reads this, store
    {
      store.Valid() && offset >= 0
    }

    constructor (store: DataStore, path: string)
      requires store.Valid()
      ensures Valid() && this.store == store && this.path == path && offset == 0
    {
      this.store, this.path, this.offset := store, path, 0;
    }

    // A read at off: the count ReadAt returns, and end of file when that is less than asked.
    method ReadAtOffset(dst: array<byte>, off: int) returns (n: nat, err: IOError)
      requires store.Valid()
      modifies dst
      ensures err == NegativeOffset <==> off < 0
      ensures off < 0 ==> n == 0 && dst[..] == old(dst[..])
      ensures off >= 0 ==>
        && n == (if dst.Length == 0 then 0
                 else ReadTotal(store.cfg, store.growth, store.world, path, off, dst.Length))
        && (err == EOF <==> n < dst.Length)
        && dst[..] == FilledBuffer(store.cfg, store.world, path, off, old(dst[..]))
    {
      hide Inv, ByteAt, CountDefined;
      if off < 0 {
        return 0, NegativeOffset;
      }
      if dst.Length == 0 {
        return 0, NoError;
      }
      var failed: bool;
      n, failed := store.ReadAt(path, off, dst);
      err := if n < dst.Length then EOF else NoError;
    }

    // Read at the cursor, which moves by the count returned.
    method Read(dst: array<byte>) returns (n: nat, err: IOError)
      requires Valid()
      modifies this, dst
      ensures Valid() && offset == old(offset) + n && err != NegativeOffset
      ensures n == (if dst.Length == 0 then 0
                    else ReadTotal(store.cfg, store.growth, store.world, path, old(offset), dst.Length))
      ensures err == EOF <==> n < dst.Length
      ensures dst[..] == FilledBuffer(store.cfg, store.world, path, old(offset), old(dst[..]))
    {
      hide Inv, ByteAt, CountDefined;
      n, err := ReadAtOffset(dst, offset);
      offset := offset + n;
    }

    // The buffers are filled one after the other, up to the first that is not filled completely.
    method FillBuffers(dstv: seq<array<byte>>, off: nat) returns (n: nat, err: IOError)
      requires store.Valid()
      modifies set d | d in dstv
      ensures var r := VecRead(Reported(store.cfg, store.growth, store.world, path), Lengths(dstv), off);
        n == r.n && err == (if r.eof then EOF else NoError)
      ensures Distinct(dstv) ==>
        var count := Reported(store.cfg, store.growth, store.world, path);
        var r := VecRead(count, Lengths(dstv), off);
        VecFilled(store.cfg, store.world, path, count, Lengths(dstv), off, r.visited,
                  old(Snapshot(dstv)), Snapshot(dstv))
    {
      hide Inv, ByteAt, Filled, ReadTotal, FilledBuffer, VecRead, VecOffset, VecFilled;
      InvWired(store.cfg, store.world, false);
      n, err := 0, NoError;
      ghost var lens, count := Lengths(dstv), Reported(store.cfg, store.growth, store.world, path);
      ghost var before := Snapshot(dstv);
      ghost var cfg, w := store.cfg, store.world;
      var at, i := off, 0;
      VecStart(count, lens, off);
      VecFilledNone(cfg, w, path, count, lens, off, before);
      while i < |dstv|
        invariant 0 <= i <= |dstv| && err == NoError && at == off + n
        invariant at == VecOffset(count, lens, off, i)
        invariant VecRead(count, lens, off) == Resume(n, i, VecRead(count, lens[i..], at))
        invariant Distinct(dstv) ==> VecFilled(cfg, w, path, count, lens, off, i, before, Snapshot(dstv))
      {
        ghost var then_ := Snapshot(dstv);
        VecRound(count, lens, off, i, at);
        var read: nat;
        read, err := ReadAtOffset(dstv[i], at);
        if Distinct(dstv) {
          assert forall j :: 0 <= j < |dstv| && j != i ==> Snapshot(dstv)[j] == then_[j];
          VecFilledMore(cfg, w, path, count, lens, off, i, before, then_, Snapshot(dstv));
        }
        n := n + read;
        if err == EOF {
          return;
        }
        at := at + read;
        i := i + 1;
      }
      VecEnd(count, lens, at);
    }

    // readVecAt. A negative offset fails at the first buffer, if there is one.
    method ReadVecAt(dstv: seq<array<byte>>, off: int) returns (n: nat, err: IOError)
      requires store.Valid()
      modifies set d | d in dstv
      ensures err == NegativeOffset <==> off < 0 && dstv != []
      ensures off < 0 ==> n == 0 && err != EOF && Snapshot(dstv) == old(Snapshot(dstv))
      ensures off >= 0 ==>
        var r := VecRead(Reported(store.cfg, store.growth, store.world, path), Lengths(dstv), off);
        n == r.n && err == (if r.eof then EOF else NoError)
      ensures off >= 0 && Distinct(dstv) ==>
        var count := Reported(store.cfg, store.growth, store.world, path);
        var r := VecRead(count, Lengths(dstv), off);
        VecFilled(store.cfg, store.world, path, count, Lengths(dstv), off, r.visited,
                  old(Snapshot(dstv)), Snapshot(dstv))
    {
      hide Inv, ByteAt, Filled, ReadTotal, FilledBuffer, VecRead, VecFilled;
      if off >= 0 {
        n, err := FillBuffers(dstv, off);
        return;
      }
      n, err := 0, NoError;
      if dstv != [] {
        ghost var before := Snapshot(dstv);
        n, err := ReadAtOffset(dstv[0], off);
        SameBuffers(dstv, before);
      }
    }

    // The same at the cursor, which moves by the total.
    method ReadVec(dstv: seq<array<byte>>) returns (n: nat, err: IOError)
      requires Valid()
      modifies this, set d | d in dstv
      ensures Valid() && offset == old(offset) + n && err != NegativeOffset
      ensures var r := VecRead(Reported(store.cfg, store.growth, store.world, path), Lengths(dstv), old(offset));
        n == r.n && err == (if r.eof then EOF else NoError)
      ensures Distinct(dstv) ==>
        var count := Reported(store.cfg, store.growth, store.world, path);
        var r := VecRead(count, Lengths(dstv), old(offset));
        VecFilled(store.cfg, store.world, path, count, Lengths(dstv), old(offset), r.visited,
                  old(Snapshot(dstv)), Snapshot(dstv))
    {
      hide Inv, ByteAt, Filled, ReadTotal, VecRead, VecFilled;
      n, err := ReadVecAt(dstv, offset);
      offset := offset + n;
    }

    // Writing never fails for a non-negative offset and always writes everything.
    method WriteAtOffset(data: seq<byte>, off: int) returns (n: nat, err: IOError)
      requires store.Valid()
      modifies store
      ensures store.Valid()
      ensures err == if off < 0 then NegativeOffset else NoError
      ensures off < 0 ==> n == 0 && store.world == old(store.world)
      ensures OnlyFile(old(store.world), store.world, path)
      ensures off >= 0 ==> n == |data| && Overlaid(store.cfg, old(store.world), store.world, path, off, data)
    {
      hide Inv, ByteAt, Overlay, ExtraSlots;
      if off < 0 {
        return 0, NegativeOffset;
      }
      store.WriteAt(path, off, data);
      return |data|, NoError;
    }

    method Write(data: seq<byte>) returns (n: nat, err: IOError)
      requires Valid()
      modifies this, store
      ensures Valid() && offset == old(offset) + n && n == |data| && err == NoError
      ensures OnlyFile(old(store.world), store.world, path)
      ensures Overlaid(store.cfg, old(store.world), store.world, path, old(offset), data)
    {
      hide Inv, ByteAt, Overlay, OnlyFile;
      n, err := WriteAtOffset(data, offset);
      offset := offset + n;
    }

    // A vector write has the effect of one write of the concatenation, on any file. A negative offset fails at the
    // first element, if there is one.
    method WriteVecAt(datav: seq<seq<byte>>, off: int) returns (n: nat, err: IOError)
      requires store.Valid()
      modifies store
      ensures store.Valid()
      ensures err == if off < 0 && datav != [] then NegativeOffset else NoError
      ensures off < 0 ==> n == 0 && store.world == old(store.world)
      ensures OnlyFile(old(store.world), store.world, path)
      ensures off >= 0 ==>
        n == |Concat(datav)| && Overlaid(store.cfg, old(store.world), store.world, path, off, Concat(datav))
    {
      hide Inv, ByteAt, Overlay, Overlaid, OnlyFile;
      InvWired(store.cfg, store.world, false);
      n, err := 0, NoError;
      ghost var w0 := store.world;
      ghost var written := [];
      ghost var base: nat := if off < 0 then 0 else off;
      var at := off;
      NothingWritten(store.cfg, w0, path, base);
      for i := 0 to |datav|
        invariant store.Valid() && OnlyFile(w0, store.world, path) && err == NoError
        invariant off < 0 ==> i == 0 && store.world == w0
        invariant written == Concat(datav[..i]) && n == |written| && at == off + n
        invariant off >= 0 ==> Overlaid(store.cfg, w0, store.world, path, base, written)
      {
        ghost var w1 := store.world;
        var wrote: nat;
        wrote, err := WriteAtOffset(datav[i], at);
        if err == NegativeOffset {
          return;
        }
        assert datav[..i + 1] == datav[..i] + [datav[i]];
        ConcatSnoc(datav[..i], datav[i]);
        OnlyFileTrans(w0, w1, store.world, path);
        OverlaidConcat(store.cfg, w0, w1, store.world, path, base, written, datav[i]);
        written := written + datav[i];
        at := at + wrote;
        n := n + wrote;
      }
      assert datav[..|datav|] == datav;
    }

    method WriteVec(datav: seq<seq<byte>>) returns (n: nat)
      requires Valid()
      modifies this, store
      ensures Valid() && offset == old(offset) + n && n == |Concat(datav)|
      ensures OnlyFile(old(store.world), store.world, path)
      ensures Overlaid(store.cfg, old(store.world), store.world, path, old(offset), Concat(datav))
    {
      hide Inv, ByteAt, Overlay, OnlyFile, Concat;
      var err: IOError;
      n, err := WriteVecAt(datav, offset);
      offset := offset + n;
    }

    // Seek moves the cursor to a non-negative position, or reports an error and leaves it.
    method Seek(off: int, whence: int) returns (pos: int, err: SeekError)
      requires Valid()
      modifies this
      ensures Valid()
      ensures whence == 0 ==> Sought(off, old(offset), offset, pos, err)
      ensures whence == 1 ==> Sought(old(offset) + off, old(offset), offset, pos, err)
      ensures whence == 2 ==> Sought(Size(store.cfg, store.world, path) + off, old(offset), offset, pos, err)
      ensures whence !in {0, 1, 2} ==> err == InvalidWhence && pos == 0 && offset == old(offset)
    {
      hide Inv, Size;
      var abs: int;
      if whence == 0 {
        abs := off;
      } else if whence == 1 {
        abs := offset + off;
      } else if whence == 2 {
        var size := store.GetSize(path);
        abs := size + off;
      } else {
        return 0, InvalidWhence;
      }
      if abs < 0 {
        return 0, NegativeLocation;
      }
      offset := abs;
      return abs, SeekOk;
    }

    method Truncate(size: int) returns (ok: bool)
      requires Valid()
      modifies store
      ensures Valid() && ok == (size >= 0)
      ensures store.world ==
        if size < 0 then old(store.world) else ResizeSpec(store.cfg, old(store.world), path, size)
    {
      hide Inv, OnlyFile;
      if size < 0 {
        return false;
      }
      store.Resize(path, size);
      return true;
    }
  }

  function Lengths(dstv: seq<array<byte>>): (lens: seq<nat>)
    ensures |lens| == |dstv| && forall i :: 0 <= i < |dstv| ==> lens[i] == dstv[i].Length
  {
    seq(|dstv|, i requires 0 <= i < |dstv| => dstv[i].Length)
  }

  // A buffer after a read at position at.
  function FilledBuffer(cfg: Config, w: World, name: string, at: nat, buffer: seq<byte>): (r: seq<byte>)
    requires cfg.stripeSize >= 1
    ensures |r| == |buffer| && forall k :: 0 <= k < |r| ==> r[k] == Filled(cfg, w, name, at + k, buffer[k])
  {
    seq(|buffer|, k requires 0 <= k < |buffer| => Filled(cfg, w, name, at + k, buffer[k]))
  }

  ghost function Snapshot(dstv: seq<array<byte>>): (r: seq<seq<byte>>)
    reads set d | d in dstv
    ensures |r| == |dstv| && forall i :: 0 <= i < |dstv| ==> r[i] == dstv[i][..]
  {
    seq(|dstv|, i requires 0 <= i < |dstv| reads set d | d in dstv => dstv[i][..])
  }

  // The first visited buffers hold what was read, the others what they held.
  ghost predicate VecFilled(cfg: Config, w: World, name: string, count: Counter, lens: seq<nat>, off: nat, visited: nat,
                            before: seq<seq<byte>>, after: seq<seq<byte>>)
    requires cfg.stripeSize >= 1
  {
    && |before| == |after| == |lens| && visited <= |lens|
    && (forall i :: 0 <= i < visited ==>
         after[i] == FilledBuffer(cfg, w, name, VecOffset(count, lens, off, i), before[i]))
    && (forall i :: visited <= i < |lens| ==> after[i] == before[i])
  }

  lemma SameBuffers(dstv: seq<array<byte>>, before: seq<seq<byte>>)
    requires |before| == |dstv|
    requires forall j :: 0 <= j < |dstv| ==> dstv[j][..] == before[j]
    ensures Snapshot(dstv) == before
  {
  }

  lemma VecFilledNone(cfg: Config, w: World, name: string, count: Counter, lens: seq<nat>, off: nat,
                      before: seq<seq<byte>>)
    requires cfg.stripeSize >= 1 && |before| == |lens|
    ensures VecFilled(cfg, w, name, count, lens, off, 0, before, before)
  {
  }

  lemma VecFilledMore(cfg: Config, w: World, name: string, count: Counter, lens: seq<nat>, off: nat, i: nat,
                      before: seq<seq<byte>>, mid: seq<seq<byte>>, after: seq<seq<byte>>)
    requires cfg.stripeSize >= 1 && i < |lens| && VecFilled(cfg, w, name, count, lens, off, i, before, mid)
    requires |after| == |mid| && forall j :: 0 <= j < |mid| && j != i ==> after[j] == mid[j]
    requires after[i] == FilledBuffer(cfg, w, name, VecOffset(count, lens, off, i), mid[i])
    ensures VecFilled(cfg, w, name, count, lens, off, i + 1, before, after)
  {
    hide FilledBuffer, VecOffset;
  }

  function Resume(n: nat, visited: nat, r: VecResult): VecResult
  {
    VecResult(n + r.n, r.eof, visited + r.visited)
  }

  lemma VecStart(count: Counter, lens: seq<nat>, off: nat)
    ensures VecOffset(count, lens, off, 0) == off
    ensures VecRead(count, lens, off) == Resume(0, 0, VecRead(count, lens[0..], off))
  {
    assert lens[0..] == lens;
  }

  lemma VecRound(count: Counter, lens: seq<nat>, off: nat, i: nat, at: nat)
    requires i < |lens| && at == VecOffset(count, lens, off, i)
    ensures var c := if lens[i] == 0 then 0 else count(at, lens[i]);
      && VecOffset(count, lens, off, i + 1) == at + c
      && VecRead(count, lens[i..], at) ==
           if c < lens[i] then VecResult(c, true, 1) else Resume(c, 1, VecRead(count, lens[i + 1..], at + c))
  {
    assert lens[i..][0] == lens[i] && lens[i..][1..] == lens[i + 1..];
  }

  lemma VecEnd(count: Counter, lens: seq<nat>, at: nat)
    ensures VecRead(count, lens[|lens|..], at) == VecResult(0, false, 0)
  {
    assert lens[|lens|..] == [];
  }

  ghost predicate Distinct(dstv: seq<array<byte>>)
  {
    forall i, j :: 0 <= i < j < |dstv| ==> dstv[i] != dstv[j]
  }

  // The cursor has gone from before to the wanted position, or stayed because that is negative.
  predicate Sought(wanted: int, before: int, after: int, pos: int, err: SeekError)
  {
    if wanted < 0 then err == NegativeLocation && pos == 0 && after == before
    else err == SeekOk && pos == after == wanted
  }

  lemma NothingWritten(cfg: Config, w: World, name: string, off: nat)
    requires cfg.stripeSize >= 1
    ensures Overlaid(cfg, w, w, name, off, []) && OnlyFile(w, w, name)
  {
    hide ByteAt;
  }

  lemma OverlaidConcat(cfg: Config, w0: World, w1: World, w2: World, name: string, off: nat, a: seq<byte>, b: seq<byte>)
    requires cfg.stripeSize >= 1
    requires Overlaid(cfg, w0, w1, name, off, a) && Overlaid(cfg, w1, w2, name, off + |a|, b)
    ensures Overlaid(cfg, w0, w2, name, off, a + b)
  {
    hide ByteAt, Overlay;
    forall p: nat
      ensures ByteAt(cfg, w2, name, p) ==
        Overlay(cfg.stripeSize, ByteAt(cfg, w0, name, p), off, a + b, 0, |a + b|, p)
    {
      OverlayConcat(cfg.stripeSize, ByteAt(cfg, w0, name, p), off, a, b, p);
      assert ByteAt(cfg, w1, name, p) == Overlay(cfg.stripeSize, ByteAt(cfg, w0, name, p), off, a, 0, |a|, p);
    }
  }

  lemma OnlyFileTrans(w0: World, w1: World, w2: World, name: string)
    requires OnlyFile(w0, w1, name) && OnlyFile(w1, w2, name)
    ensures OnlyFile(w0, w2, name)
  {
    forall c, k | c in w0 && !FileKey(name, k)
      ensures SameAt(w0, w2, c, k)
    {
      assert SameAt(w0, w1, c, k) && SameAt(w1, w2, c, k);
    }
  }
}
