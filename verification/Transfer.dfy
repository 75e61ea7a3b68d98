// pv's transfer buffer and main loop, in byte mode. System calls may move any number of bytes up to what was asked.
module Transfer {
  import opened Basics

  const MAX_READ_AT_ONCE: nat := 524288
  const MAX_WRITE_AT_ONCE: nat := 524288

  // ---------- what the system answers ----------

  // One read(): at most that data, of which at most what was asked is taken; none at all at the end of the input. stop:
  // afterwards the timer has expired, or select() finds nothing more to read. A list of answers that has ended stands
  // for an input at its end.
  datatype ReadAnswer = Got(data: seq<byte>, stop: bool) | Failed

  // One write(): how many bytes it takes at most, and whether the timer has expired; EINTR or EAGAIN; any other
  // error. A list of answers that has ended stands for an output that takes nothing.
  datatype WriteAnswer = Took(n: nat, stop: bool) | Interrupted | Refused

  // One splice(): data moved, nothing moved or an error that is neither EAGAIN nor EINVAL, EAGAIN, EINVAL.
  datatype SpliceAnswer = Moved(data: seq<byte>) | NothingMoved | TryAgain | NotSupported

  datatype Select = SelectFailed(interrupted: bool) | Ready(readable: bool, writable: bool)

  // Everything the system answers during one round. tick: the clock has reached the next rate check. transient: a
  // failed read() was EINTR or EAGAIN. pipe: a failed write() was EPIPE. sameInput: the next input has the descriptor
  // of this one.
  datatype Env = Env(reading: seq<ReadAnswer>, splice: SpliceAnswer, transient: bool,
                     writing: seq<WriteAnswer>, pipe: bool,
                     resizeFails: bool, select: Select, tick: bool, sameInput: bool)

  function Cut(data: seq<byte>, n: nat): (r: seq<byte>)
    ensures |r| == Min(|data|, n)
  {
    data[..Min(|data|, n)]
  }

  // What a call of pv__transfer_read_repeated takes from the input, and whether it fails.
  datatype ReadEnd = ReadEnd(data: seq<byte>, failed: bool)

  function ReadCall(count: nat, answers: seq<ReadAnswer>): (r: ReadEnd)
    ensures |r.data| <= count
    decreases |answers|
  {
    if count == 0 || answers == [] then ReadEnd([], false)
    else match answers[0]
      case Failed => ReadEnd([], true)
      case Got(data, stop) =>
        var got := Cut(data, Min(count, MAX_READ_AT_ONCE));
        if got == [] || stop then ReadEnd(got, false)
        else
          var rest := ReadCall(count - |got|, answers[1..]);
          ReadEnd(got + rest.data, rest.failed)
  }

  // The same, after bytes that the call has taken before.
  function After(data: seq<byte>, r: ReadEnd): ReadEnd { ReadEnd(data + r.data, r.failed) }

  lemma AfterNothing(r: ReadEnd)
    ensures After([], r) == r
  {
  }

  lemma AfterTwice(a: seq<byte>, b: seq<byte>, r: ReadEnd)
    ensures After(a, After(b, r)) == After(a + b, r)
  {
    assert a + (b + r.data) == (a + b) + r.data;
  }

  lemma ReadOver(data: seq<byte>, count: nat, answers: seq<ReadAnswer>, i: nat)
    requires i <= |answers| && (count == 0 || i == |answers|)
    ensures After(data, ReadCall(count, answers[i..])) == ReadEnd(data, false)
  {
    assert data + [] == data;
  }

  lemma ReadNext(data: seq<byte>, count: nat, answers: seq<ReadAnswer>, i: nat)
    requires i < |answers| && count > 0
    ensures After(data, ReadCall(count, answers[i..])) ==
      match answers[i]
      case Failed => ReadEnd(data, true)
      case Got(d, stop) =>
        var got := Cut(d, Min(count, MAX_READ_AT_ONCE));
        if got == [] || stop then ReadEnd(data + got, false)
        else After(data + got, ReadCall(count - |got|, answers[i + 1..]))
  {
    assert answers[i..][1..] == answers[i + 1..];
    assert data + [] == data;
    match answers[i]
    case Failed =>
    case Got(d, stop) =>
      var got := Cut(d, Min(count, MAX_READ_AT_ONCE));
      if got != [] && !stop {
        AfterTwice(data, got, ReadCall(count - |got|, answers[i + 1..]));
      }
  }

  // What a call of pv__transfer_write_repeated hands to the output, and whether it fails.
  datatype WriteEnd = WriteEnd(n: nat, failed: bool)

  function WriteCall(count: nat, answers: seq<WriteAnswer>): (r: WriteEnd)
    ensures r.n <= count
    decreases |answers|
  {
    if count == 0 || answers == [] then WriteEnd(0, false)
    else match answers[0]
      case Refused => WriteEnd(0, true)
      case Interrupted => WriteEnd(0, false)
      case Took(n, stop) =>
        var k := Min(n, Min(count, MAX_WRITE_AT_ONCE));
        if k == 0 || stop then WriteEnd(k, false)
        else
          var rest := WriteCall(count - k, answers[1..]);
          WriteEnd(k + rest.n, rest.failed)
  }

  // The calls go on until there is no room, or nothing left, as long as the answers bring or take something and the
  // timer does not expire.
  lemma {:induction false} ReadsUntilFull(count: nat, answers: seq<ReadAnswer>)
    requires |answers| >= count
    requires forall j :: 0 <= j < |answers| ==> answers[j].Got? && !answers[j].stop && answers[j].data != []
    ensures var r := ReadCall(count, answers); !r.failed && |r.data| == count
    ensures count > 0 ==> Cut(answers[0].data, Min(count, MAX_READ_AT_ONCE)) <= ReadCall(count, answers).data
    decreases count
  {
    if count > 0 {
      ReadsUntilFull(count - |Cut(answers[0].data, Min(count, MAX_READ_AT_ONCE))|, answers[1..]);
    }
  }

  lemma {:induction false} WritesUntilDone(count: nat, answers: seq<WriteAnswer>)
    requires |answers| >= count
    requires forall j :: 0 <= j < |answers| ==> answers[j].Took? && !answers[j].stop && answers[j].n > 0
    ensures WriteCall(count, answers) == WriteEnd(count, false)
    decreases count
  {
    if count > 0 {
      WritesUntilDone(count - Min(answers[0].n, Min(count, MAX_WRITE_AT_ONCE)), answers[1..]);
    }
  }

  // What a splice() of at most count bytes comes to.
  function SpliceEnd(count: nat, answer: SpliceAnswer): SpliceAnswer
  {
    if !answer.Moved? then answer
    else if Cut(answer.data, count) == [] then NothingMoved
    else Moved(Cut(answer.data, count))
  }

  // The first write() takes nothing, without an error that ends the program.
  predicate Blocks(answers: seq<WriteAnswer>)
  {
    answers == [] || answers[0] == Interrupted || (answers[0].Took? && answers[0].n == 0)
  }

  predicate SomeBlocks(offers: seq<seq<WriteAnswer>>)
  {
    exists k :: 0 <= k < |offers| && Blocks(offers[k])
  }

  lemma OneMoreOffer(offers: seq<seq<WriteAnswer>>, answers: seq<WriteAnswer>)
    ensures SomeBlocks(offers + [answers]) <==> SomeBlocks(offers) || Blocks(answers)
  {
    hide Blocks;
    var more := offers + [answers];
    assert more[|offers|] == answers;
    assert forall k :: 0 <= k < |offers| ==> more[k] == offers[k];
    if SomeBlocks(offers) {
      var k :| 0 <= k < |offers| && Blocks(offers[k]);
      assert Blocks(more[k]);
    }
  }

  lemma BlocksExactly(count: nat, answers: seq<WriteAnswer>)
    requires count > 0
    ensures WriteCall(count, answers) == WriteEnd(0, false) <==> Blocks(answers)
  {
  }

  // ---------- what a failing read() loses ----------

  // How many bytes the first i answers bring.
  function BytesOf(count: nat, answers: seq<ReadAnswer>, i: nat): (n: nat)
    requires i <= |answers|
    ensures n <= count
  {
    if i == 0 then 0
    else
      var before := BytesOf(count, answers, i - 1);
      match answers[i - 1]
      case Failed => before
      case Got(data, _) => before + Min(|data|, Min(count - before, MAX_READ_AT_ONCE))
  }

  // The call gets as far as answer i: all answers before it brought bytes, none stopped the call, and there is room
  // left.
  predicate Reached(count: nat, answers: seq<ReadAnswer>, i: nat)
    requires i <= |answers|
  {
    BytesOf(count, answers, i) < count &&
    forall j :: 0 <= j < i ==> answers[j].Got? && !answers[j].stop && answers[j].data != []
  }

  // A read() of the call fails after an earlier one has brought bytes.
  predicate LosesBytes(count: nat, answers: seq<ReadAnswer>)
  {
    exists i :: 0 < i < |answers| && answers[i] == Failed && Reached(count, answers, i)
  }

  lemma {:induction false} BytesShift(count: nat, answers: seq<ReadAnswer>, i: nat)
    requires 0 < i <= |answers| && answers[0].Got?
    ensures var k := Min(|answers[0].data|, Min(count, MAX_READ_AT_ONCE));
      BytesOf(count, answers, i) == k + BytesOf(count - k, answers[1..], i - 1)
    decreases i
  {
    if i == 1 {
      assert BytesOf(count, answers, 0) == 0;
    } else {
      BytesShift(count, answers, i - 1);
      assert answers[1..][i - 2] == answers[i - 1];
    }
  }

  lemma ReachedShift(count: nat, answers: seq<ReadAnswer>, i: nat)
    requires 0 < i <= |answers| && answers[0].Got? && !answers[0].stop && answers[0].data != []
    ensures var k := Min(|answers[0].data|, Min(count, MAX_READ_AT_ONCE));
      Reached(count, answers, i) <==> Reached(count - k, answers[1..], i - 1)
  {
    hide BytesOf;
    BytesShift(count, answers, i);
    assert forall j :: 0 < j < i ==> answers[j] == answers[1..][j - 1];
    assert forall j :: 0 <= j < i - 1 ==> answers[1..][j] == answers[j + 1];
  }

  // A call fails exactly when it reaches a failing read().
  lemma {:induction false} FailsExactly(count: nat, answers: seq<ReadAnswer>)
    ensures ReadCall(count, answers).failed <==>
      exists i :: 0 <= i < |answers| && answers[i] == Failed && Reached(count, answers, i)
    decreases |answers|
  {
    hide Reached;
    if answers == [] || count == 0 || answers[0] == Failed {
      FirstAnswer(count, answers);
    } else {
      FirstAnswer(count, answers);
      var k := Min(|answers[0].data|, Min(count, MAX_READ_AT_ONCE));
      if k > 0 && !answers[0].stop {
        FailsExactly(count - k, answers[1..]);
        forall i | 0 < i < |answers|
          ensures answers[i] == answers[1..][i - 1]
          ensures Reached(count, answers, i) <==> Reached(count - k, answers[1..], i - 1)
        {
          ReachedShift(count, answers, i);
        }
        if ReadCall(count - k, answers[1..]).failed {
          var i :| 0 <= i < |answers[1..]| && answers[1..][i] == Failed && Reached(count - k, answers[1..], i);
          assert answers[i + 1] == Failed && Reached(count, answers, i + 1);
        }
      }
    }
  }

  // The first answer is reached if there is room, and no later one is unless it brings bytes and does not stop.
  lemma FirstAnswer(count: nat, answers: seq<ReadAnswer>)
    ensures Reached(count, answers, 0) <==> count > 0
    ensures forall i :: 0 < i <= |answers| && Reached(count, answers, i) ==>
      count > 0 && answers[0].Got? && !answers[0].stop && answers[0].data != []
  {
  }

  lemma LosesExactly(count: nat, answers: seq<ReadAnswer>)
    ensures ReadCall(count, answers).failed && ReadCall(count, answers).data != [] <==> LosesBytes(count, answers)
  {
    hide Reached;
    FailsExactly(count, answers);
    FirstAnswer(count, answers);
  }

  // ---------- history ----------

  // One taking from an input: a call of pv__transfer_read_repeated, or one splice().
  datatype Taking = Reading(count: nat, answers: seq<ReadAnswer>) | Splicing(data: seq<byte>)

  function TakenBy(t: Taking): seq<byte>
  {
    if t.Reading? then ReadCall(t.count, t.answers).data else t.data
  }

  // A failed call forgets the bytes it has put into the buffer.
  function KeptOf(t: Taking): seq<byte>
  {
    if t.Reading? && ReadCall(t.count, t.answers).failed then [] else TakenBy(t)
  }

  // Everything taken from the inputs.
  function Consumed(takings: seq<Taking>): seq<byte>
  {
    if takings == [] then [] else Consumed(takings[..|takings| - 1]) + TakenBy(takings[|takings| - 1])
  }

  function Kept(takings: seq<Taking>): seq<byte>
  {
    if takings == [] then [] else Kept(takings[..|takings| - 1]) + KeptOf(takings[|takings| - 1])
  }

  // Nothing that was kept is lost, duplicated or reordered on the way through the buffer.
  ghost predicate Conserved(output: seq<byte>, waiting: seq<byte>, takings: seq<Taking>)
  {
    output + waiting == Kept(takings)
  }

  predicate Loses(t: Taking) { t.Reading? && LosesBytes(t.count, t.answers) }

  // Whatever the inputs answer: all that was taken is kept if and only if in no call a read() fails after an earlier
  // one of the same call has brought bytes.
  lemma {:induction false} KeptExactly(takings: seq<Taking>)
    ensures |Kept(takings)| <= |Consumed(takings)|
    ensures Kept(takings) == Consumed(takings) <==> forall k :: 0 <= k < |takings| ==> !Loses(takings[k])
    decreases |takings|
  {
    hide ReadCall, LosesBytes;
    if takings != [] {
      var init, t := takings[..|takings| - 1], takings[|takings| - 1];
      KeptExactly(init);
      if t.Reading? {
        LosesExactly(t.count, t.answers);
      }
      assert KeptOf(t) == TakenBy(t) <==> !Loses(t);
      assert forall k :: 0 <= k < |init| ==> init[k] == takings[k];
      SameParts(Kept(init), KeptOf(t), Consumed(init), TakenBy(t));
    }
  }

  lemma SameParts(a: seq<byte>, b: seq<byte>, c: seq<byte>, d: seq<byte>)
    requires |a| <= |c| && |b| <= |d|
    ensures a + b == c + d <==> a == c && b == d
  {
    if a + b == c + d {
      assert |a| == |c|;
      assert a == (a + b)[..|a|] && c == (c + d)[..|c|];
      assert b == (a + b)[|a|..] && d == (c + d)[|c|..];
    }
  }

  // A byte read, and then a failing read() of the same call: the byte is gone.
  lemma ForgottenByte()
    ensures var takings := [Reading(2, [Got([7], false), Failed])];
      Consumed(takings) == [7] && Kept(takings) == []
  {
    var answers: seq<ReadAnswer> := [Got([7], false), Failed];
    assert answers[1..] == [Failed];
    assert ReadCall(1, [Failed]) == ReadEnd([], true);
    assert ReadCall(2, answers) == ReadEnd([7], true);
    var takings := [Reading(2, answers)];
    assert takings[..0] == [];
  }

  // memcpy into a, at position at.
  method Fill(a: array<byte>, at: nat, data: seq<byte>)
    requires at + |data| <= a.Length
    modifies a
    ensures a[..at + |data|] == old(a[..at]) + data
  {
    for i := 0 to |data|
      invariant a[..at + i] == old(a[..at]) + data[..i]
    {
      a[at + i] := data[i];
    }
    assert data[..|data|] == data;
  }

  method Enlarged(a: array<byte>, used: nat, size: nat) returns (b: array<byte>)
    requires used <= a.Length <= size
    ensures fresh(b) && b.Length == size && b[..used] == a[..used]
  {
    b := new byte[size](_ => 0);
    for i := 0 to used
      invariant b[..i] == a[..i]
    {
      b[i] := a[i];
    }
  }

  // memmove of n bytes from a later position to the start.
  method MoveDown(a: array<byte>, from: nat, n: nat)
    requires from + n <= a.Length
    modifies a
    ensures a[..n] == old(a[from..from + n])
  {
    for i := 0 to n
      invariant forall k :: 0 <= k < i ==> a[k] == old(a[from + k])
      invariant forall k :: i <= k < a.Length ==> a[k] == old(a[k])
    {
      a[i] := a[from + i];
    }
  }

  // ---------- moving bytes ----------

  lemma TakingConserves(output: seq<byte>, waiting: seq<byte>, takings: seq<Taking>, t: Taking)
    requires Conserved(output, waiting, takings)
    ensures Conserved(output, waiting + KeptOf(t), takings + [t])
    ensures waiting == [] ==> Conserved(output + KeptOf(t), [], takings + [t])
  {
    hide KeptOf;
    assert (takings + [t])[..|takings|] == takings;
    assert output + (waiting + KeptOf(t)) == (output + waiting) + KeptOf(t);
    assert waiting == [] ==> output + waiting == output;
  }

  lemma TailOfJoin(a: seq<byte>, b: seq<byte>, from: nat)
    requires from <= |a|
    ensures (a + b)[from..] == a[from..] + b
  {
  }

  lemma PrefixGrows(output: seq<byte>, data: seq<byte>, total: nat, k: nat)
    requires total + k <= |data|
    ensures (output + data[..total]) + data[total..total + k] == output + data[..total + k]
  {
    assert data[..total] + data[total..total + k] == data[..total + k];
  }

  // The front of what waits, and what is left of it.
  lemma Front(a: array<byte>, from: nat, count: nat, n: nat, until: nat)
    requires n <= count && from + count <= until <= a.Length
    ensures var waiting := a[from..until];
      && a[from..from + count][..n] == waiting[..n] && a[from + n..until] == waiting[n..]
      && waiting == waiting[..n] + waiting[n..]
  {
  }

  lemma FrontConserves(output: seq<byte>, waiting: seq<byte>, n: nat, takings: seq<Taking>)
    requires n <= |waiting| && Conserved(output, waiting, takings)
    ensures Conserved(output + waiting[..n], waiting[n..], takings)
    ensures n == 0 ==> output + waiting[..n] == output && waiting[n..] == waiting
  {
    assert output + waiting == (output + waiting[..n]) + waiting[n..];
  }

  predicate Limit(rateLimit: nat, allowed: nat, waiting: int, toWrite: nat)
  {
    && (rateLimit > 0 || allowed > 0 ==> toWrite == Min(waiting, allowed))
    && (rateLimit == 0 && allowed == 0 ==> toWrite == waiting)
  }

  predicate EndsRight(stuck: bool, waiting: bool, eofIn: bool, eofOut: bool)
  {
    && (stuck ==> eofOut && waiting)
    && (eofOut && !stuck ==> eofIn && !waiting)
    && (eofIn && !waiting ==> eofOut)
  }

  // ---------- what one call moves ----------

  // What waits, what has been taken, what has been output, and the write calls made for the current input.
  datatype View = View(waiting: seq<byte>, takings: seq<Taking>, output: seq<byte>, offers: seq<seq<WriteAnswer>>)

  // How many bytes may be written: what waits, cut to the allowance if there is one.
  function Allowance(rateLimit: nat, allowed: nat, waiting: nat): (n: nat)
    ensures n <= waiting
  {
    if rateLimit > 0 || allowed > 0 then Min(waiting, allowed) else waiting
  }

  // What is taken from an input that is read, with n bytes to write: by splice() when that may be tried, else by
  // read().
  function TakenNow(maySplice: bool, n: nat, most: nat, room: nat, env: Env): (taken: seq<Taking>)
    ensures |taken| <= 1 && (taken != [] && taken[0].Splicing? ==> taken[0].data != [])
    ensures taken == [] || taken[0].Splicing? ==> n == 0
  {
    if !maySplice || n > 0 then [Reading(room, env.reading)]
    else match SpliceEnd(most, env.splice)
      case Moved(data) => [Splicing(data)]
      case TryAgain => []
      case _ => [Reading(room, env.reading)]
  }

  // What read() adds to the buffer, and what splice() hands straight to the output.
  function Added(taken: seq<Taking>): seq<byte>
  {
    if taken != [] && taken[0].Reading? then KeptOf(taken[0]) else []
  }

  function Spliced(taken: seq<Taking>): seq<byte>
  {
    if taken != [] && taken[0].Splicing? then taken[0].data else []
  }

  // Taking failed for the moment: the call ends there.
  predicate Postponed(taken: seq<Taking>, transient: bool)
  {
    taken == [] || (taken[0].Reading? && ReadCall(taken[0].count, taken[0].answers).failed && transient)
  }

  // Nothing more comes from the input: read() brings nothing, or fails for good.
  predicate InputOver(taken: seq<Taking>, transient: bool)
  {
    && taken != [] && taken[0].Reading?
    && (var r := ReadCall(taken[0].count, taken[0].answers); if r.failed then !transient else r.data == [])
  }

  lemma NothingAdded(waiting: seq<byte>, output: seq<byte>, takings: seq<Taking>)
    ensures Spliced([]) == Added([]) == []
    ensures output + [] + waiting[..0] == output && waiting[0..] + [] == waiting && takings + [] == takings
    ensures waiting + [] == waiting && output + [] == output
  {
  }

  function AfterTaking(v: View, read: bool, taken: seq<Taking>): View
  {
    if !read then v
    else View(v.waiting + Added(taken), v.takings + taken, v.output + Spliced(taken), v.offers)
  }

  function AfterWriting(v: View, write: bool, n: nat, answers: seq<WriteAnswer>): View
    requires n <= |v.waiting|
  {
    var k := if write then WriteCall(n, answers).n else 0;
    v.(waiting := v.waiting[k..], output := v.output + v.waiting[..k],
       offers := if write then v.offers + [answers] else v.offers)
  }

  lemma PostponedTakesNothing(taken: seq<Taking>, transient: bool)
    requires Postponed(taken, transient)
    ensures Spliced(taken) == []
  {
    hide ReadCall;
  }

  // After what is taken and then what is written.
  lemma MovesInTwo(before: View, mid: View, read: bool, taken: seq<Taking>, write: bool, n: nat, env: Env)
    requires n <= |before.waiting| && mid == AfterTaking(before, read, taken)
    ensures n <= |mid.waiting|
    ensures var w := write && !(read && Postponed(taken, env.transient));
      Moves(before, AfterWriting(mid, w, n, env.writing), read, taken, write, n, env)
    ensures !read || Spliced(taken) == [] ==>
      AfterWriting(mid, true, n, env.writing).output == before.output + before.waiting[..WriteCall(n, env.writing).n]
  {
    hide WriteCall, Postponed, Added, Spliced;
    var k := if write && !(read && Postponed(taken, env.transient)) then WriteCall(n, env.writing).n else 0;
    NothingAdded(before.waiting, before.output, before.takings);
    if read {
      assert mid.waiting[..k] == before.waiting[..k];
      assert mid.waiting[k..] == before.waiting[k..] + Added(taken);
      assert mid.waiting[..WriteCall(n, env.writing).n] == before.waiting[..WriteCall(n, env.writing).n];
    } else {
      assert before.waiting[k..] + [] == before.waiting[k..];
    }
  }

  lemma NoneWritten(v: View, n: nat, answers: seq<WriteAnswer>)
    requires n <= |v.waiting|
    ensures AfterWriting(v, false, n, answers) == v
  {
    assert v.output + v.waiting[..0] == v.output && v.waiting[0..] == v.waiting;
  }

  // The count that the call of splice() or of pv__transfer_read_repeated returns.
  function TakenCount(taken: seq<Taking>): int
  {
    if taken == [] then -1
    else if taken[0].Splicing? then |taken[0].data|
    else
      var r := ReadCall(taken[0].count, taken[0].answers);
      if r.failed then -1 else |r.data|
  }

  lemma JustTaken(taken: seq<Taking>)
    requires |taken| <= 1
    ensures taken == [] ==> Added(taken) == [] && Spliced(taken) == [] && TakenCount(taken) == -1
    ensures taken != [] && taken[0].Splicing? ==>
      Added(taken) == [] && Spliced(taken) == taken[0].data && TakenCount(taken) == |taken[0].data|
    ensures taken != [] && taken[0].Reading? ==>
      var r := ReadCall(taken[0].count, taken[0].answers);
      && Added(taken) == (if r.failed then [] else r.data) && Spliced(taken) == []
      && TakenCount(taken) == (if r.failed then -1 else |r.data|)
  {
    hide ReadCall;
  }

  lemma CountMeans(taken: seq<Taking>, transient: bool)
    ensures |Added(taken)| == (if TakenCount(taken) > 0 && taken[0].Reading? then TakenCount(taken) else 0)
    ensures taken != [] && taken[0] != Splicing([]) ==>
      (InputOver(taken, transient) <==>
         (taken[0].Reading? && (TakenCount(taken) == 0 || (TakenCount(taken) < 0 && !transient))))
    ensures taken != [] ==>
      (Postponed(taken, transient) <==> taken[0].Reading? && TakenCount(taken) < 0 && transient)
    ensures TakenCount(taken) >= -1
  {
    hide ReadCall;
  }

  // What one call moves. taken is what is taken from the input if the call reads at all, n what it may write.
  predicate Moves(before: View, after: View, read: bool, taken: seq<Taking>, write: bool, n: nat, env: Env)
    requires n <= |before.waiting|
  {
    var now := if read then taken else [];
    var w := write && !(read && Postponed(taken, env.transient));
    var k := if w then WriteCall(n, env.writing).n else 0;
    && after.offers == before.offers + (if w then [env.writing] else [])
    && after.takings == before.takings + now
    && after.output == before.output + Spliced(now) + before.waiting[..k]
    && after.waiting == before.waiting[k..] + Added(now)
  }

  // What a call of pv_transfer starts from.
  datatype Before = Before(view: View, position: nat, maySplice: bool, spliced: bool, rateLimit: nat)

  // What a call of pv_transfer does, in a buffer of that size. The input is read if it has not ended, there is room,
  // and it is ready. The output is written if something may be written, it has not ended, and it is ready; a splice
  // that the call before used still counts when this call does not read. Only a failing write() breaks the transfer.
  predicate Does(b: Before, size: nat, allowed: nat, eofIn0: bool, eofOut0: bool, env: Env,
                 after: View, eofIn: bool, spliced: bool, broken: bool)
  {
    b.position <= size &&
    var n := Allowance(b.rateLimit, allowed, |b.view.waiting|);
    var room := size - b.position;
    var taken := TakenNow(b.maySplice, n, if b.rateLimit > 0 || allowed > 0 then allowed else room, room, env);
    var read := !eofIn0 && room > 0 && env.select.Ready? && env.select.readable;
    var write := !eofOut0 && n > 0 && env.select.Ready? && env.select.writable && (read || !b.spliced);
    if broken then
      write && WriteCall(n, env.writing).failed &&
      after.output == b.view.output + b.view.waiting[..WriteCall(n, env.writing).n]
    else
      && Moves(b.view, after, read, taken, write, n, env)
      && eofIn == (eofIn0 || (read && InputOver(taken, env.transient)))
      && spliced == if read then taken == [] || taken[0].Splicing? else b.spliced
  }

  // A call that finds both ends closed, or whose select() fails, moves nothing.
  lemma NothingMoves(b: Before, size: nat, allowed: nat, eofIn: bool, eofOut: bool, env: Env)
    requires b.position <= size && ((eofIn && eofOut) || env.select.SelectFailed?)
    ensures Does(b, size, allowed, eofIn, eofOut, env, b.view, eofIn, b.spliced, false)
  {
    hide WriteCall, TakenNow, Postponed, InputOver, Allowance;
    NothingAdded(b.view.waiting, b.view.output, b.view.takings);
    assert b.view.waiting[0..] == b.view.waiting && b.view.offers + [] == b.view.offers;
  }

  // ---------- the transfer buffer ----------

  class State {
    var buffer: array<byte>
    var bufferSize: nat
    var targetSize: nat
    var readPosition: nat
    var writePosition: nat
    var toWrite: nat
    var written: nat
    var spliceUsed: bool
    var spliceFailed: bool          // splice failed on the current input
    const canSplice: bool           // HAVE_SPLICE, and splicing not switched off
    const rateLimit: nat
    ghost var takings: seq<Taking>  // everything taken from the inputs
    ghost var output: seq<byte>     // everything the output accepted
    ghost var offers: seq<seq<WriteAnswer>>  // the answers to each write call made for the current input
    var broken: bool                // a write failed for good (written is -1 then, or the output is gone)

    ghost predicate Valid()
      reads this, buffer
    {
      && writePosition <= readPosition <= bufferSize
      && buffer.Length == bufferSize + 32
      && Balanced()
    }

    ghost function Waiting(): seq<byte>
      reads this, buffer
      requires writePosition <= readPosition <= buffer.Length
    {
      buffer[writePosition..readPosition]
    }

    ghost predicate Balanced()
      reads this, buffer
      requires writePosition <= readPosition <= buffer.Length
    {
      !broken ==> Conserved(output, Waiting(), takings)
    }

    ghost function Now(): View
      reads this, buffer
      requires writePosition <= readPosition <= buffer.Length
    {
      View(Waiting(), takings, output, offers)
    }

    ghost function Start(): Before
      reads this, buffer
      requires writePosition <= readPosition <= buffer.Length
    {
      Before(Now(), readPosition, canSplice && !spliceFailed, spliceUsed, rateLimit)
    }

    ghost function TakenIn(n: nat, allowed: nat, size: nat, env: Env): seq<Taking>
      reads this
      requires readPosition <= size
    {
      var room := size - readPosition;
      TakenNow(canSplice && !spliceFailed, n, if rateLimit > 0 || allowed > 0 then allowed else room, room, env)
    }

    // A write call for the current input returned 0.
    ghost predicate Stuck()
      reads this
    {
      SomeBlocks(offers)
    }

    // What the end flags mean: a blocked write call ends the output with bytes waiting, and it is the only reason for
    // ending it before the input has ended and nothing waits.
    ghost predicate Ends(eofIn: bool, eofOut: bool)
      reads this
    {
      EndsRight(SomeBlocks(offers), writePosition < readPosition, eofIn, eofOut)
    }

    constructor (targetSize: nat, canSplice: bool, rateLimit: nat)
      ensures Valid() && takings == [] && output == [] && offers == [] && !broken && Ends(false, false)
      ensures readPosition == writePosition == 0 && bufferSize == this.targetSize == targetSize && !spliceUsed
      ensures this.rateLimit == rateLimit && this.canSplice == canSplice && fresh(buffer)
    {
      bufferSize, this.targetSize := targetSize, targetSize;
      buffer := new byte[targetSize + 32](_ => 0);
      readPosition, writePosition, toWrite, written := 0, 0, 0, 0;
      spliceUsed, spliceFailed := false, false;
      this.canSplice, this.rateLimit := canSplice, rateLimit;
      takings, output, offers, broken := [], [], [], false;
    }

    // Reads into at most count bytes from position at on, until they are full, the input has nothing more now, or a
    // timer expires. None on a failed read(), which forgets what earlier reads of the same call had put there.
    method ReadRepeated(a: array<byte>, at: nat, count: nat, answers: seq<ReadAnswer>) returns (nread: Option<nat>)
      requires at + count <= a.Length
      modifies this`takings, a
      ensures takings == old(takings) + [Reading(count, answers)]
      ensures var r := ReadCall(count, answers);
        && nread == (if r.failed then None else Some(|r.data|))
        && a[..at + |r.data|] == old(a[..at]) + r.data
    {
      hide ReadCall, After;
      takings := takings + [Reading(count, answers)];
      var total, left, i := 0, count, 0;
      ghost var data: seq<byte> := [];
      assert answers[0..] == answers;
      AfterNothing(ReadCall(count, answers));
      while left > 0 && i < |answers|
        invariant 0 <= i <= |answers| && 0 <= left && total + left == count && |data| == total
        invariant After(data, ReadCall(left, answers[i..])) == ReadCall(count, answers)
        invariant a[..at + total] == old(a[..at]) + data && takings == old(takings) + [Reading(count, answers)]
        decreases left
      {
        ReadNext(data, left, answers, i);
        var answer := answers[i];
        if answer == Failed {
          return None;
        }
        var got := Cut(answer.data, Min(left, MAX_READ_AT_ONCE));
        Fill(a, at + total, got);
        assert old(a[..at]) + data + got == old(a[..at]) + (data + got);
        data := data + got;
        total := total + |got|;
        left := left - |got|;
        if |got| == 0 || answer.stop {
          assert |got| == 0 ==> got == [];
          assert ReadCall(count, answers) == ReadEnd(data, false);
          return Some(total);
        }
        i := i + 1;
      }
      ReadOver(data, left, answers, i);
      return Some(total);
    }

    // splice() straight from input to output.
    method Splice(count: nat, answer: SpliceAnswer) returns (r: SpliceAnswer)
      modifies this`takings, this`output
      ensures r == SpliceEnd(count, answer)
      ensures r.Moved? ==> takings == old(takings) + [Splicing(r.data)] && output == old(output) + r.data
      ensures !r.Moved? ==> takings == old(takings) && output == old(output)
    {
      r := answer;
      if answer.Moved? {
        var data := Cut(answer.data, count);
        if data == [] {
          return NothingMoved;
        }
        takings, output := takings + [Splicing(data)], output + data;
        r := Moved(data);
      }
    }

    // The splice attempt: possible only when nothing may be written from the buffer.
    method TrySplice(allowed: nat, room: nat, answer: SpliceAnswer) returns (nread: int)
      requires Valid() && !broken && written == 0 && toWrite == 0
      requires LimitSet(allowed)
      modifies this`spliceUsed, this`spliceFailed, this`written, this`takings, this`output
      ensures Valid() && old(takings) <= takings && -1 <= nread
      ensures spliceUsed ==> written == Max(nread, 0) == |output| - |old(output)|
      ensures spliceUsed && nread > 0 ==> readPosition == writePosition
      ensures rateLimit > 0 || allowed > 0 ==> written <= allowed
      ensures !spliceUsed ==> written == 0 && output == old(output)
      ensures spliceUsed ==> nread != 0
      ensures match SpliceEnd(if rateLimit > 0 || allowed > 0 then allowed else room, answer)
        case Moved(data) =>
          && spliceUsed && nread == |data| > 0
          && takings == old(takings) + [Splicing(data)] && output == old(output) + data
        case TryAgain => spliceUsed && nread == -1 && takings == old(takings) && output == old(output)
        case _ => !spliceUsed && takings == old(takings) && output == old(output)
    {
      hide Kept;
      ghost var output0, takings0, waiting := output, takings, Waiting();
      var r := Splice(if rateLimit > 0 || allowed != 0 then allowed else room, answer);
      nread := 0;
      spliceUsed := true;
      match r {
        case NotSupported => spliceFailed, spliceUsed := true, false;
        case Moved(data) =>
          written, nread := |data|, |data|;
          TakingConserves(output0, waiting, takings0, Splicing(data));
        case TryAgain => nread := -1;
        case NothingMoved => spliceUsed := false;
      }
    }

    // read() into the free part of the buffer; the read position is moved by the caller.
    method ReadIntoBuffer(answers: seq<ReadAnswer>) returns (nread: int)
      requires Valid() && !broken
      modifies this`takings, buffer
      ensures takings == old(takings) + [Reading(bufferSize - readPosition, answers)]
      ensures buffer.Length == bufferSize + 32
      ensures var r := ReadCall(bufferSize - readPosition, answers);
        && nread == (if r.failed then -1 else |r.data|) && readPosition + nread <= bufferSize
        && (nread < 0 ==> Valid() && Waiting() == old(Waiting()))
        && (nread >= 0 ==> buffer[writePosition..readPosition + nread] == old(Waiting()) + r.data)
        && (nread >= 0 ==> Conserved(output, buffer[writePosition..readPosition + nread], takings))
    {
      hide Kept, ReadCall;
      ghost var waiting, takings0, before := Waiting(), takings, buffer[..readPosition];
      ghost var taking := Reading(bufferSize - readPosition, answers);
      ghost var data := TakenBy(taking);
      assert waiting == before[writePosition..];
      var got := ReadRepeated(buffer, readPosition, bufferSize - readPosition, answers);
      TakingConserves(output, waiting, takings0, taking);
      assert buffer[writePosition..readPosition + |data|] == buffer[..readPosition + |data|][writePosition..];
      TailOfJoin(before, data, writePosition);
      if got.Some? {
        nread := got.value;
      } else {
        nread := -1;
        assert Waiting() == (waiting + data)[..|waiting|];
        assert waiting + [] == waiting;
      }
    }

    // The part of pv__transfer_read that takes from the input: by splice() if that may be tried and works, else by
    // read().
    method TakeInput(allowed: nat, env: Env) returns (nread: int)
      requires Valid() && written == 0 && !broken
      requires LimitSet(allowed)
      modifies this`spliceUsed, this`spliceFailed, this`written, this`takings, this`output, buffer
      ensures buffer.Length == bufferSize + 32
      ensures var taken := old(TakenIn(toWrite, allowed, bufferSize, env));
        && takings == old(takings) + taken && output == old(output) + Spliced(taken)
        && spliceUsed == (taken == [] || taken[0].Splicing?)
        && written == |Spliced(taken)| && (rateLimit > 0 || allowed > 0 ==> written <= allowed)
        && (written > 0 ==> readPosition == writePosition)
        && readPosition + |Added(taken)| <= bufferSize
        && buffer[writePosition..readPosition + |Added(taken)|] == old(Waiting()) + Added(taken)
        && Conserved(output, buffer[writePosition..readPosition + |Added(taken)|], takings)
        && nread == TakenCount(taken)
    {
      hide Conserved, ReadCall, Limit, Kept, KeptOf, Added, TakenCount, Spliced, TakenNow, SpliceEnd;
      ghost var taken, waiting := TakenIn(toWrite, allowed, bufferSize, env), Waiting();
      JustTaken(taken);
      assert waiting + [] == waiting && output + [] == output;
      var done: bool;
      done, nread := SpliceFirst(allowed, env);
      if !done {
        nread := ReadIntoBuffer(env.reading);
      }
    }

    // The splice attempt, if there is one. done: it was used, and nothing is read.
    method SpliceFirst(allowed: nat, env: Env) returns (done: bool, nread: int)
      requires Valid() && written == 0 && !broken
      requires LimitSet(allowed)
      modifies this`spliceUsed, this`spliceFailed, this`written, this`takings, this`output
      ensures Valid() && spliceUsed == done && written == |output| - |old(output)|
      ensures rateLimit > 0 || allowed > 0 ==> written <= allowed
      ensures written > 0 ==> readPosition == writePosition
      ensures var taken := old(TakenIn(toWrite, allowed, bufferSize, env));
        if !done then
          taken == [Reading(bufferSize - readPosition, env.reading)] && takings == old(takings) && output == old(output)
        else if taken == [] then
          nread == -1 && takings == old(takings) && output == old(output)
        else
          && taken[0].Splicing? && nread == |taken[0].data| && takings == old(takings) + taken
          && output == old(output) + taken[0].data
    {
      hide Conserved, Limit;
      done, nread := false, 0;
      spliceUsed := false;
      if canSplice && !spliceFailed && toWrite == 0 {
        nread := TrySplice(allowed, bufferSize - readPosition, env.splice);
        done := spliceUsed;
      }
    }

    // pv__transfer_read without error skipping. ok is false for a transient error. What read() brings is added to what
    // waits, what splice() moves is output; bringing nothing is the end of the input.
    method Read(eofIn0: bool, eofOut0: bool, allowed: nat, env: Env) returns (ok: bool, eofIn: bool, eofOut: bool)
      requires Valid() && written == 0 && !broken
      requires LimitSet(allowed)
      modifies this`readPosition, this`spliceUsed, this`spliceFailed, this`written, this`takings, this`output, buffer
      ensures Valid() && readPosition >= old(readPosition)
      ensures rateLimit > 0 || allowed > 0 ==> written <= allowed
      ensures written > 0 ==> spliceUsed && old(readPosition) == writePosition == readPosition
      ensures old(Ends(eofIn0, eofOut0)) && !eofIn0 ==> Ends(eofIn, eofOut)
      ensures var taken := old(TakenIn(toWrite, allowed, bufferSize, env));
        && takings == old(takings) + taken
        && output == old(output) + Spliced(taken) && written == |Spliced(taken)|
        && Waiting() == old(Waiting()) + Added(taken)
        && spliceUsed == (taken == [] || taken[0].Splicing?)
        && ok == !Postponed(taken, env.transient)
        && eofIn == (eofIn0 || InputOver(taken, env.transient))
        && eofOut == (eofOut0 || (InputOver(taken, env.transient) && Waiting() == []))
    {
      hide Conserved, ReadCall, SomeBlocks, Limit, TakenNow;
      eofIn, eofOut := eofIn0, eofOut0;
      ghost var taken := TakenIn(toWrite, allowed, bufferSize, env);
      var nread := TakeInput(allowed, env);
      CountMeans(taken, env.transient);
      ok, eofIn, eofOut := ReadDone(nread, eofIn, eofOut, env.transient);
    }

    // What pv__transfer_read makes of the count it got.
    method ReadDone(nread: int, eofIn0: bool, eofOut0: bool, transient: bool)
      returns (ok: bool, eofIn: bool, eofOut: bool)
      modifies this`readPosition
      ensures readPosition == old(readPosition) + (if nread > 0 && !spliceUsed then nread else 0)
      ensures ok == (nread >= 0 || !(transient || spliceUsed))
      ensures nread > 0 || !ok ==> eofIn == eofIn0 && eofOut == eofOut0
      ensures nread <= 0 && ok ==> eofIn && eofOut == (eofOut0 || writePosition >= readPosition)
    {
      eofIn, eofOut := eofIn0, eofOut0;
      if nread == 0 {
        eofIn := true;
        if writePosition >= readPosition {
          eofOut := true;
        }
        return true, eofIn, eofOut;
      }
      if nread > 0 {
        if !spliceUsed {
          readPosition := readPosition + nread;
        }
        return true, eofIn, eofOut;
      }
      if transient || spliceUsed {
        return false, eofIn, eofOut;
      }
      eofIn := true;
      if writePosition >= readPosition {
        eofOut := true;
      }
      ok := true;
    }

    // Writes until all is written, the output takes nothing more, or a timer expires; None is a fatal error.
    method WriteRepeated(data: seq<byte>, answers: seq<WriteAnswer>) returns (nwritten: Option<nat>)
      modifies this`output, this`offers
      ensures offers == old(offers) + [answers]
      ensures var r := WriteCall(|data|, answers);
        && nwritten == (if r.failed then None else Some(r.n))
        && output == old(output) + data[..r.n]
    {
      offers := offers + [answers];
      var total, left, i := 0, |data|, 0;
      ghost var output0 := output;
      assert data[..0] == [];
      assert answers[0..] == answers;
      while left > 0 && i < |answers|
        invariant 0 <= i <= |answers| && 0 <= left && total + left == |data|
        invariant WriteCall(|data|, answers) ==
          WriteEnd(total + WriteCall(left, answers[i..]).n, WriteCall(left, answers[i..]).failed)
        invariant output == output0 + data[..total] && offers == old(offers) + [answers]
        decreases left
      {
        var answer := answers[i];
        assert answers[i..][0] == answer && answers[i..][1..] == answers[i + 1..];
        if answer == Interrupted {
          return Some(total);
        } else if answer == Refused {
          return None;
        }
        var k := Min(answer.n, Min(left, MAX_WRITE_AT_ONCE));
        PrefixGrows(output0, data, total, k);
        output := output + data[total..total + k];
        total := total + k;
        left := left - k;
        if k == 0 || answer.stop {
          return Some(total);
        }
        i := i + 1;
      }
      return Some(total);
    }

    // pv__transfer_write. A failed write marks the transfer as broken; otherwise what was written leaves the front of
    // the buffer.
    method Write(eofIn: bool, eofOut0: bool, answers: seq<WriteAnswer>) returns (ok: bool, eofOut: bool)
      requires Valid() && !broken && written == 0 && 0 < toWrite <= readPosition - writePosition && !eofOut0
      modifies this`readPosition, this`writePosition, this`written, this`output, this`offers, this`broken
      ensures Valid()
      ensures broken <==> WriteCall(toWrite, answers).failed
      ensures offers == old(offers) + [answers]
      ensures !broken ==> written == |output| - |old(output)| <= toWrite
      ensures var n := WriteCall(toWrite, answers).n;
        && output == old(output) + old(Waiting())[..n]
        && (!broken ==> Waiting() == old(Waiting())[n..])
      ensures !broken && old(Ends(eofIn, eofOut0)) ==> Ends(eofIn, eofOut)
      ensures !broken ==> eofOut == (Blocks(answers) || (eofIn && Waiting() == []))
    {
      hide Conserved, WriteCall, Blocks, SomeBlocks;
      eofOut := eofOut0;
      ghost var waiting, offers0 := Waiting(), offers;
      var data := buffer[writePosition..writePosition + toWrite];
      BlocksExactly(toWrite, answers);
      var nwritten := WriteRepeated(data, answers);
      OneMoreOffer(offers0, answers);
      Front(buffer, writePosition, toWrite, WriteCall(toWrite, answers).n, readPosition);
      FrontConserves(old(output), waiting, WriteCall(toWrite, answers).n, takings);
      if nwritten == None {
        broken := true;
        return false, true;
      }
      var n := nwritten.value;
      if n == 0 {
        return true, true;
      }
      eofOut := Advance(n, eofIn);
      ok := true;
    }

    // The written bytes leave the buffer.
    method Advance(n: nat, eofIn: bool) returns (eofOut: bool)
      requires writePosition + n <= readPosition <= bufferSize < buffer.Length
      modifies this`readPosition, this`writePosition, this`written
      ensures writePosition <= readPosition <= bufferSize && written == old(written) + n
      ensures Waiting() == old(Waiting())[n..]
      ensures eofOut == (eofIn && Waiting() == [])
    {
      eofOut := false;
      writePosition := writePosition + n;
      written := written + n;
      if writePosition >= readPosition {
        writePosition, readPosition := 0, 0;
        if eofIn {
          eofOut := true;
        }
      }
    }

    // realloc to the wanted size, which may fail.
    method Resize(fails: bool)
      requires Valid()
      modifies this`buffer, this`bufferSize, this`targetSize
      ensures Valid() && (buffer == old(buffer) || fresh(buffer))
      ensures writePosition <= readPosition <= buffer.Length && Waiting() == old(Waiting())
      ensures old(bufferSize) <= bufferSize && Max(bufferSize, targetSize) <= old(Max(bufferSize, targetSize))
    {
      if bufferSize < targetSize {
        if fails {
          targetSize := bufferSize;
        } else {
          var bigger := Enlarged(buffer, readPosition, targetSize + 32);
          assert bigger[writePosition..readPosition] == bigger[..readPosition][writePosition..];
          assert buffer[writePosition..readPosition] == buffer[..readPosition][writePosition..];
          buffer, bufferSize := bigger, targetSize;
        }
      }
    }

    // MAXIMISE_BUFFER_FILL: move what waits to the start of the buffer.
    method Rotate()
      requires Valid()
      modifies this`readPosition, this`writePosition, buffer
      ensures Valid() && writePosition == 0 && Waiting() == old(Waiting())
      ensures writePosition < readPosition <==> old(writePosition < readPosition)
    {
      if writePosition > 0 {
        if writePosition < readPosition {
          var n := readPosition - writePosition;
          MoveDown(buffer, writePosition, n);
          readPosition := n;
          writePosition := 0;
        } else {
          writePosition, readPosition := 0, 0;
        }
      }
    }

    // How much may be written now: what waits, and no more than allowed if there is a limit.
    ghost predicate LimitSet(allowed: nat)
      reads this
    {
      Limit(rateLimit, allowed, readPosition - writePosition, toWrite)
    }

    method SetLimit(allowed: nat)
      requires Valid()
      modifies this`toWrite
      ensures LimitSet(allowed) && toWrite == Allowance(rateLimit, allowed, |Waiting()|)
      ensures rateLimit > 0 || allowed > 0 ==> toWrite <= allowed
    {
      toWrite := readPosition - writePosition;
      if rateLimit > 0 || allowed > 0 {
        if toWrite > allowed {
          toWrite := allowed;
        }
      }
    }

    // The part of pv_transfer after reading.
    method MoveOut(eofIn0: bool, eofOut0: bool, writable: bool, env: Env)
      returns (result: Option<nat>, eofIn: bool, eofOut: bool)
      requires Valid() && !broken && (written == 0 || spliceUsed) && toWrite <= |Waiting()|
      requires writable && !spliceUsed && toWrite > 0 ==> !eofOut0
      modifies this`readPosition, this`writePosition, this`written, this`output, this`offers, this`broken, buffer
      ensures Valid()
      ensures !broken ==> result == Some(old(written) + |output| - |old(output)|)
      ensures !broken && output != old(output) ==> |output| - |old(output)| <= toWrite && !spliceUsed
      ensures var write := writable && !spliceUsed && toWrite > 0;
        var after := AfterWriting(old(Now()), write, toWrite, env.writing);
        && (broken <==> write && WriteCall(toWrite, env.writing).failed)
        && (broken ==> output == after.output)
        && (!broken ==> Now() == after && writePosition == 0)
      ensures !broken ==> eofIn == eofIn0
      ensures broken ==> result == None || result == Some(0)
      ensures !broken && old(Ends(eofIn0, eofOut0)) ==> Ends(eofIn, eofOut)
    {
      hide Conserved, WriteCall, Blocks, SomeBlocks, EndsRight, Limit;
      NoneWritten(Now(), toWrite, env.writing);
      eofIn, eofOut := eofIn0, eofOut0;
      if writable && !spliceUsed && readPosition > writePosition && toWrite > 0 {
        var ok: bool;
        ok, eofOut := Write(eofIn, eofOut, env.writing);
        if broken {
          return (if env.pipe then Some(0) else None), eofIn || env.pipe, true;
        }
      }
      NothingWaits();
      Rotate();
      return Some(written), eofIn, eofOut;
    }

    // The same in the state mid, which is that after before if read says that taken has been taken since.
    method MoveOn(eofIn0: bool, eofOut0: bool, writable: bool, env: Env,
                  ghost before: View, ghost mid: View, ghost read: bool, ghost taken: seq<Taking>)
      returns (result: Option<nat>, eofIn: bool, eofOut: bool)
      requires Valid() && !broken && (written == 0 || spliceUsed) && toWrite <= |Waiting()|
      requires writable && !spliceUsed && toWrite > 0 ==> !eofOut0
      requires toWrite <= |before.waiting| && Now() == mid == AfterTaking(before, read, taken)
      requires !(read && Postponed(taken, env.transient)) && (toWrite > 0 ==> !read || Spliced(taken) == [])
      modifies this`readPosition, this`writePosition, this`written, this`output, this`offers, this`broken, buffer
      ensures Valid()
      ensures !broken ==> result == Some(old(written) + |output| - |old(output)|)
      ensures !broken && output != old(output) ==> |output| - |old(output)| <= toWrite && !spliceUsed
      ensures var write := writable && !spliceUsed && toWrite > 0;
        var end := WriteCall(toWrite, env.writing);
        && (broken <==> write && end.failed)
        && (broken ==> output == before.output + before.waiting[..end.n])
        && (!broken ==> Moves(before, Now(), read, taken, write, toWrite, env) && writePosition == 0)
      ensures !broken ==> eofIn == eofIn0
      ensures broken ==> result == None || result == Some(0)
      ensures !broken && old(Ends(eofIn0, eofOut0)) ==> Ends(eofIn, eofOut)
    {
      hide *;
      ghost var write := writable && !spliceUsed && toWrite > 0;
      MovesInTwo(before, mid, read, taken, write, toWrite, env);
      result, eofIn, eofOut := MoveOut(eofIn0, eofOut0, writable, env);
    }

    lemma NothingWaits()
      requires writePosition <= readPosition <= buffer.Length
      ensures Waiting() == [] <==> writePosition >= readPosition
    {
    }

    // The part of pv_transfer that reads, if the input is readable: taken is what it takes.
    method MoveIn(eofIn0: bool, eofOut0: bool, allowed: nat, readable: bool, env: Env,
                  ghost before: View, ghost taken: seq<Taking>)
      returns (ok: bool, eofIn: bool, eofOut: bool, ghost mid: View)
      requires Valid() && !broken && written == 0 && LimitSet(allowed) && (readable ==> !eofIn0)
      requires before == Now() && taken == TakenIn(toWrite, allowed, bufferSize, env)
      modifies this`readPosition, this`written, this`spliceUsed, this`spliceFailed, this`takings, this`output, buffer
      ensures Valid() && (rateLimit > 0 || allowed > 0 ==> written <= allowed)
      ensures mid == Now() == AfterTaking(before, readable, taken) && |Waiting()| >= |before.waiting|
      ensures written == |output| - |before.output| && (written > 0 ==> spliceUsed)
      ensures ok == !(readable && Postponed(taken, env.transient)) && (!ok ==> written == 0)
      ensures eofIn == (eofIn0 || (readable && InputOver(taken, env.transient)))
      ensures spliceUsed == if readable then taken == [] || taken[0].Splicing? else old(spliceUsed)
      ensures readable && toWrite > 0 ==> !spliceUsed && Spliced(taken) == []
      ensures eofOut && !eofOut0 ==> toWrite == 0 || |Waiting()| < toWrite
      ensures old(Ends(eofIn0, eofOut0)) ==> Ends(eofIn, eofOut)
    {
      hide Conserved, ReadCall, SomeBlocks, EndsRight, TakenNow, Postponed, InputOver, Added, KeptOf, Limit,
           State.Balanced;
      ok, eofIn, eofOut := true, eofIn0, eofOut0;
      if readable {
        ok, eofIn, eofOut := Read(eofIn, eofOut, allowed, env);
        if !ok {
          PostponedTakesNothing(taken, env.transient);
        }
        NothingWaits();
      }
      mid := Now();
    }

    // The part of pv_transfer after select(): from before, taking taken if the input is readable.
    method Move(eofIn0: bool, eofOut0: bool, allowed: nat, readable: bool, writable: bool, env: Env,
                ghost before: View, ghost taken: seq<Taking>)
      returns (result: Option<nat>, eofIn: bool, eofOut: bool)
      requires Valid() && !broken && written == 0 && LimitSet(allowed)
      requires toWrite <= |before.waiting| && (rateLimit > 0 || allowed > 0 ==> toWrite <= allowed)
      requires before == Now() && taken == TakenIn(toWrite, allowed, bufferSize, env)
      requires (readable ==> !eofIn0) && (writable ==> !eofOut0)
      modifies this`readPosition, this`writePosition, this`written, this`spliceUsed, this`spliceFailed,
               this`takings, this`output, this`offers, this`broken, buffer
      ensures Valid()
      ensures !broken ==> result == Some(|output| - |before.output|)
      ensures !broken && (rateLimit > 0 || allowed > 0) ==> |output| - |before.output| <= allowed
      ensures broken ==> result == None || result == Some(0)
      ensures !broken && old(Ends(eofIn0, eofOut0)) ==> Ends(eofIn, eofOut)
      ensures var write := writable && toWrite > 0 && (readable || !old(spliceUsed));
        var end := WriteCall(toWrite, env.writing);
        if broken then write && end.failed && output == before.output + before.waiting[..end.n]
        else
          && Moves(before, Now(), readable, taken, write, toWrite, env)
          && eofIn == (eofIn0 || (readable && InputOver(taken, env.transient)))
          && spliceUsed == if readable then taken == [] || taken[0].Splicing? else old(spliceUsed)
      ensures !broken && old(writePosition) == 0 ==> writePosition == 0
    {
      hide *;
      ghost var write, mid := writable && toWrite > 0 && (readable || !spliceUsed), before;
      var ok: bool;
      ok, eofIn, eofOut, mid := MoveIn(eofIn0, eofOut0, allowed, readable, env, before, taken);
      if !ok {
        MovesInTwo(before, mid, readable, taken, write, toWrite, env);
        NoneWritten(mid, toWrite, env.writing);
        return Some(0), eofIn, eofOut;
      }
      result, eofIn, eofOut := MoveOn(eofIn, eofOut, writable, env, before, mid, readable, taken);
    }

    // select(), and what follows it.
    method Poll(eofIn0: bool, eofOut0: bool, allowed: nat, env: Env)
      returns (result: Option<nat>, eofIn: bool, eofOut: bool)
      requires Valid() && !broken && LimitSet(allowed) && toWrite == Allowance(rateLimit, allowed, |Waiting()|)
      requires rateLimit > 0 || allowed > 0 ==> toWrite <= allowed
      modifies this`readPosition, this`writePosition, this`written, this`spliceUsed, this`spliceFailed,
               this`takings, this`output, this`offers, this`broken, buffer
      ensures Valid()
      ensures result.Some? && !broken ==> |output| == |old(output)| + result.value
      ensures !broken && (rateLimit > 0 || allowed > 0) ==> |output| - |old(output)| <= allowed
      ensures result == None && !broken ==> output == old(output)
      ensures broken ==> result == None || result == Some(0)
      ensures !broken && old(Ends(eofIn0, eofOut0)) ==> Ends(eofIn, eofOut)
      ensures Does(old(Start()), bufferSize, allowed, eofIn0, eofOut0, env, Now(), eofIn, spliceUsed, broken)
      ensures result == None ==> broken || env.select == SelectFailed(false)
      ensures !broken && old(writePosition) == 0 ==> writePosition == 0
    {
      hide Conserved, Kept, ReadCall, WriteCall, SomeBlocks, EndsRight, TakenNow, Postponed, InputOver, Added, Spliced,
           Moves, Limit, Allowance;
      eofIn, eofOut := eofIn0, eofOut0;
      var askRead := !eofIn && readPosition < bufferSize;
      var askWrite := !eofOut && toWrite > 0;
      if env.select.SelectFailed? {
        NothingMoves(Start(), bufferSize, allowed, eofIn, eofOut, env);
        return (if env.select.interrupted then Some(0) else None), eofIn, eofOut;
      }
      written := 0;
      result, eofIn, eofOut := Move(eofIn, eofOut, allowed, askRead && env.select.readable,
                                    askWrite && env.select.writable, env, Now(),
                                    TakenIn(toWrite, allowed, bufferSize, env));
    }

    // pv_transfer. The result is None when the program must stop. Whatever the system answers, the bytes already output
    // followed by those still waiting are the bytes that calls kept, in order; a rate limit or a positive allowance is
    // never exceeded; and the call moves what Does says: it reads when there is room and the input is ready, and writes
    // when something may be written and the output is ready.
    method PvTransfer(eofIn0: bool, eofOut0: bool, allowed: nat, env: Env)
      returns (result: Option<nat>, eofIn: bool, eofOut: bool)
      requires Valid() && !broken
      modifies this, buffer
      ensures Valid() && (buffer == old(buffer) || fresh(buffer))
      ensures result.Some? && !broken ==> |output| == |old(output)| + result.value
      ensures !broken && (rateLimit > 0 || allowed > 0) ==> |output| - |old(output)| <= allowed
      ensures result == None && !broken ==> output == old(output)
      ensures broken ==> result == None || result == Some(0)
      ensures eofIn0 && eofOut0 ==> result == Some(0) && eofIn && eofOut && output == old(output) && !broken
      ensures !broken && old(Ends(eofIn0, eofOut0)) ==> Ends(eofIn, eofOut)
      ensures old(bufferSize) <= bufferSize && Max(bufferSize, targetSize) <= old(Max(bufferSize, targetSize))
      ensures Does(old(Start()), bufferSize, allowed, eofIn0, eofOut0, env, Now(), eofIn, spliceUsed, broken)
      ensures result == None ==> broken || env.select == SelectFailed(false)
      ensures !broken && old(writePosition) == 0 ==> writePosition == 0
    {
      hide Conserved, SomeBlocks, EndsRight, Limit, Allowance, Does;
      Resize(env.resizeFails);
      if eofIn0 && eofOut0 {
        NothingMoves(Start(), bufferSize, allowed, eofIn0, eofOut0, env);
        return Some(0), true, true;
      }
      SetLimit(allowed);
      result, eofIn, eofOut := Poll(eofIn0, eofOut0, allowed, env);
    }

    // pv_next_file: write calls are counted from here on for the next input.
    method NextFile(sameInput: bool)
      requires Valid()
      modifies this`spliceFailed, this`offers
      ensures Valid() && offers == [] && Waiting() == old(Waiting())
    {
      spliceFailed := spliceFailed && sameInput;
      offers := [];
    }
  }

  // From an empty buffer, a byte is read.
  lemma ByteIsRead(b: Before, env: Env, after: View, eofIn: bool, spliced: bool, broken: bool)
    requires b == Before(View([], [], [], []), 0, false, false, 0)
    requires env.reading == [Got([7], true)] && env.select == Ready(true, false)
    requires Does(b, 16, 0, false, false, env, after, eofIn, spliced, broken)
    ensures !broken && !eofIn && !spliced && after.waiting == [7] && after.output == [] && after.offers == []
  {
    assert ReadCall(16, env.reading) == ReadEnd([7], false);
  }

  // The output refuses the first write() of a byte with EAGAIN.
  lemma ByteIsRefused(b: Before, env: Env, after: View, eofIn: bool, spliced: bool, broken: bool)
    requires b.view.waiting == [7] && b.view.output == [] && b.position <= 16 && b.rateLimit == 0 && !b.spliced
    requires env.writing == [Interrupted] && env.select == Ready(false, true)
    requires Does(b, 16, 0, false, false, env, after, eofIn, spliced, broken)
    ensures !broken && !eofIn && after.waiting == [7] && after.output == []
    ensures after.offers == b.view.offers + [[Interrupted]]
  {
    assert WriteCall(1, env.writing) == WriteEnd(0, false);
  }

  // The input ends.
  lemma InputEnds(b: Before, env: Env, after: View, eofIn: bool, spliced: bool, broken: bool)
    requires b.view.waiting == [7] && b.view.output == [] && b.position == 1 && b.rateLimit == 0 && !b.maySplice
    requires env.reading == [] && env.select == Ready(true, false)
    requires Does(b, 16, 0, false, true, env, after, eofIn, spliced, broken)
    ensures !broken && eofIn && after.waiting == [7] && after.output == [] && after.offers == b.view.offers
  {
    assert ReadCall(15, []) == ReadEnd([], false);
  }

  lemma OneBlocked()
    ensures !SomeBlocks([]) && SomeBlocks([[Interrupted]])
  {
    assert Blocks([[Interrupted]][0]);
  }

  // A byte has been read and waits.
  ghost predicate HoldsByte(s: State, offers: seq<seq<WriteAnswer>>)
    reads s, s.buffer
  {
    && s.Valid() && !s.broken && !s.canSplice && s.rateLimit == 0 && s.targetSize <= 16 == s.bufferSize
    && s.writePosition == 0 && s.Waiting() == [7] && s.output == [] && s.offers == offers
  }

  method WithByte() returns (s: State, eofIn: bool, eofOut: bool)
    ensures fresh(s) && fresh(s.buffer) && HoldsByte(s, []) && !s.spliceUsed && !eofIn && !eofOut
  {
    hide Conserved, Kept, SomeBlocks, Does;
    OneBlocked();
    s := new State(16, false, 0);
    var env := Env([Got([7], true)], NothingMoved, false, [], false, false, Ready(true, false), false, true);
    var result: Option<nat>;
    ghost var b := s.Start();
    result, eofIn, eofOut := s.PvTransfer(false, false, 0, env);
    ByteIsRead(b, env, s.Now(), eofIn, s.spliceUsed, s.broken);
  }

  method StuckByte() returns (s: State, eofIn: bool, eofOut: bool)
    ensures fresh(s) && fresh(s.buffer) && HoldsByte(s, [[Interrupted]]) && !eofIn && eofOut && s.Stuck()
  {
    hide Conserved, Kept, SomeBlocks, Does;
    OneBlocked();
    s, eofIn, eofOut := WithByte();
    var env := Env([], NothingMoved, false, [Interrupted], false, false, Ready(false, true), false, true);
    var result: Option<nat>;
    ghost var b := s.Start();
    result, eofIn, eofOut := s.PvTransfer(eofIn, eofOut, 0, env);
    ByteIsRefused(b, env, s.Now(), eofIn, s.spliceUsed, s.broken);
  }

  // A byte is read, the output refuses the first write() with EAGAIN, and the input ends: the transfer is over with a
  // byte waiting.
  method Stranded() returns (s: State, eofIn: bool, eofOut: bool)
    ensures s.Valid() && !s.broken && eofIn && eofOut
    ensures s.Waiting() == [7] && s.output == [] && s.Stuck()
  {
    hide Conserved, Kept, SomeBlocks, Does;
    s, eofIn, eofOut := StuckByte();
    var env := Env([], NothingMoved, false, [], false, false, Ready(true, false), false, true);
    var result: Option<nat>;
    ghost var b := s.Start();
    result, eofIn, eofOut := s.PvTransfer(eofIn, eofOut, 0, env);
    InputEnds(b, env, s.Now(), eofIn, s.spliceUsed, s.broken);
  }
}
