// pv's main loop, in byte mode: quotas around the transfers, and one input after the other.
module MainLoops {
  import opened Basics
  import opened Transfer

  // What one refill adds to the target: rate_limit / (1000000 / RATE_GRANULARITY).
  function Chunk(rateLimit: nat): real { rateLimit as real / 10.0 }

  // What all refills together allow.
  ghost function Quota(refills: nat, rateLimit: nat): real
  {
    if refills == 0 then 0.0 else Quota(refills - 1, rateLimit) + Chunk(rateLimit)
  }

  lemma {:induction false} QuotaIs(refills: nat, rateLimit: nat)
    ensures Quota(refills, rateLimit) * 10.0 == (refills * rateLimit) as real
  {
    if refills > 0 {
      QuotaIs(refills - 1, rateLimit);
      assert refills * rateLimit == (refills - 1) * rateLimit + rateLimit;
    }
  }

  // ---------- progress ----------

  // Both descriptors are ready, no read() fails, and every write() takes at least a byte.
  predicate Lively(env: Env)
  {
    && env.select == Ready(true, true)
    && (forall j :: 0 <= j < |env.reading| ==> env.reading[j].Got?)
    && env.writing != []
    && (forall j :: 0 <= j < |env.writing| ==> env.writing[j].Took? && env.writing[j].n > 0)
  }

  // The current input has nothing more.
  predicate AtEnd(env: Env)
  {
    && (env.splice == NothingMoved || env.splice == NotSupported)
    && (env.reading == [] || (env.reading[0].Got? && env.reading[0].data == []))
  }

  predicate AllLively(envs: seq<Env>)
  {
    forall i :: 0 <= i < |envs| ==> Lively(envs[i])
  }

  // How many rounds at the end of the run find the input at its end.
  function Quiet(envs: seq<Env>): (n: nat)
    ensures n <= |envs| && (n < |envs| ==> !AtEnd(envs[|envs| - n - 1]))
    ensures forall i :: |envs| - n <= i < |envs| ==> AtEnd(envs[i])
  {
    if envs == [] || !AtEnd(envs[|envs| - 1]) then 0 else 1 + Quiet(envs[..|envs| - 1])
  }

  lemma LivelyRead(count: nat, env: Env)
    requires Lively(env)
    ensures !ReadCall(count, env.reading).failed && !Loses(Reading(count, env.reading))
    ensures AtEnd(env) ==> ReadCall(count, env.reading).data == []
  {
    FailsExactly(count, env.reading);
  }

  lemma {:induction false} LivelyWrite(n: nat, writing: seq<WriteAnswer>)
    requires forall j :: 0 <= j < |writing| ==> writing[j].Took? && writing[j].n > 0
    ensures !WriteCall(n, writing).failed
    ensures n > 0 && writing != [] ==> WriteCall(n, writing).n > 0 && !Blocks(writing)
    decreases |writing|
  {
    if n > 0 && writing != [] {
      LivelyWrite(n - Min(writing[0].n, Min(n, MAX_WRITE_AT_ONCE)), writing[1..]);
    }
  }

  // In a lively round bytes are taken whenever there is room and the input has some, and bytes are output whenever any
  // may be, limits or not.
  lemma LivelyMoves(b: Before, size: nat, allowed: nat, eofIn0: bool, eofOut0: bool, env: Env,
                    after: View, eofIn: bool, spliced: bool, broken: bool)
    requires b.position <= size && Lively(env)
    requires Does(b, size, allowed, eofIn0, eofOut0, env, after, eofIn, spliced, broken)
    ensures !broken
    ensures !eofIn0 && b.position < size && env.splice != TryAgain && env.reading != [] && env.reading[0].data != [] ==>
      !eofIn && |after.takings| == |b.view.takings| + 1 && TakenBy(after.takings[|b.view.takings|]) != []
    ensures !eofOut0 && (b.spliced ==> !eofIn0 && b.position < size) && b.view.waiting != [] ==>
      (b.rateLimit > 0 ==> allowed > 0) ==> |after.output| > |b.view.output|
  {
    hide LosesBytes, WriteCall, Blocks;
    LivelyRead(size - b.position, env);
    LivelyWrite(Allowance(b.rateLimit, allowed, |b.view.waiting|), env.writing);
  }

  // No write call was blocked, no call lost bytes, and a splice leaves nothing waiting and the input open.
  predicate Steady(v: View, eofIn: bool, spliced: bool)
  {
    && !SomeBlocks(v.offers)
    && (spliced ==> v.waiting == [] && !eofIn)
    && (forall k :: 0 <= k < |v.takings| ==> !Loses(v.takings[k]))
  }

  // What is left to do for the current input.
  function Left(v: View, eofIn: bool): nat
  {
    |v.waiting| + (if eofIn then 0 else 1)
  }

  predicate Underway(b: Before, size: nat, eofIn: bool, eofOut: bool)
  {
    && Steady(b.view, eofIn, b.spliced)
    && b.position == |b.view.waiting| <= size && size > 0 && b.rateLimit == 0
    && EndsRight(false, b.view.waiting != [], eofIn, eofOut) && !(eofIn && eofOut)
  }

  // A lively round keeps all that, and gets on with an input that has ended.
  lemma LivelyRound(b: Before, size: nat, eofIn0: bool, eofOut0: bool, env: Env,
                    after: View, eofIn: bool, spliced: bool, broken: bool)
    requires Underway(b, size, eofIn0, eofOut0) && Lively(env)
    requires Does(b, size, 0, eofIn0, eofOut0, env, after, eofIn, spliced, broken)
    ensures !broken && env.select.Ready? && Steady(after, eofIn, spliced)
    ensures AtEnd(env) ==> Left(after, eofIn) < Left(b.view, eofIn0)
  {
    hide LosesBytes, ReadCall, WriteCall, SomeBlocks, Blocks;
    var n, room := |b.view.waiting|, size - b.position;
    LivelyRead(room, env);
    LivelyWrite(n, env.writing);
    OneMoreOffer(b.view.offers, env.writing);
    assert !broken;
    assert b.view.offers + [] == b.view.offers;
    assert !SomeBlocks(after.offers);
    assert spliced ==> after.waiting == [] && !eofIn;
    assert forall k :: 0 <= k < |after.takings| ==> !Loses(after.takings[k]);
  }

  lemma NoneBlocks()
    ensures !SomeBlocks([])
  {
  }

  // ---------- the loop ----------

  // pv_main_loop: the quota arithmetic around the transfers.
  class MainLoop {
    const state: State
    const size: nat
    const stopAtSize: bool
    var totalWritten: int
    var target: real
    ghost var refills: nat

    ghost predicate Valid()
      reads this, state, state.buffer
    {
      && state.Valid() && !state.broken
      && totalWritten == |state.output|
      && target >= 0.0
      && (state.rateLimit > 0 ==> target + totalWritten as real == Quota(refills, state.rateLimit))
      && (Stops() ==> totalWritten <= size)
    }

    predicate Stops() { stopAtSize && size > 0 }

    // The target after the rate check.
    ghost function Refilled(env: Env): (t: real)
      reads this
    {
      if state.rateLimit > 0 && env.tick then target + Chunk(state.rateLimit) else target
    }

    // The size to stop at is reached.
    ghost predicate Over(env: Env)
      reads this
    {
      Stops() && totalWritten == size && (state.rateLimit > 0 ==> Refilled(env) >= 1.0)
    }

    // What the round may write, 0 for no limit when there is no rate limit: the whole bytes of the target, and never
    // more than is missing at the size to stop at.
    ghost function Share(env: Env): nat
      requires target >= 0.0 && (Stops() ==> totalWritten <= size)
      reads this
    {
      var quota := Refilled(env).Floor;
      if Stops() then (if state.rateLimit > 0 then Min(quota, size - totalWritten) else size - totalWritten)
      else if state.rateLimit > 0 then quota
      else 0
    }

    constructor (state: State, size: nat, stopAtSize: bool)
      requires state.Valid() && !state.broken && state.output == []
      ensures Valid() && this.state == state && this.size == size && this.stopAtSize == stopAtSize
      ensures totalWritten == 0
    {
      this.state, this.size, this.stopAtSize := state, size, stopAtSize;
      totalWritten, target, refills := 0, 0.0, 0;
    }

    // A fresh state, and neither a rate limit nor a size to stop at.
    ghost predicate Unlimited()
      reads this, state
    {
      && state.readPosition == state.writePosition == 0 && state.takings == [] && !state.spliceUsed
      && state.bufferSize > 0 && state.rateLimit == 0 && !Stops()
    }

    // The size up to which the buffer may grow.
    ghost function Most(): nat
      reads state
    {
      Max(state.bufferSize, state.targetSize)
    }

    // The part of a round before the transfer. over: nothing is transferred, and both ends are closed.
    method CanSend(env: Env) returns (canSend: nat, over: bool)
      requires Valid()
      modifies this`target, this`refills
      ensures Valid() && target == old(Refilled(env))
      ensures refills == old(refills) + (if env.tick && state.rateLimit > 0 then 1 else 0)
      ensures over == old(Over(env)) && (!over ==> canSend == old(Share(env)))
    {
      canSend, over := 0, false;
      if state.rateLimit > 0 {
        if env.tick {
          target := target + Chunk(state.rateLimit);
          refills := refills + 1;
        }
        canSend := target.Floor;
      }
      if size > 0 && stopAtSize {
        if size < totalWritten + canSend || (canSend == 0 && state.rateLimit == 0) {
          canSend := size - totalWritten;
          over := canSend <= 0;
        }
      }
    }

    // One round. stop is set when the program ends because of an error. The transfer does what it does with the round's
    // share; when the size to stop at is reached, nothing moves and the run is over.
    method Round(env: Env, eofIn0: bool, eofOut0: bool) returns (stop: bool, eofIn: bool, eofOut: bool)
      requires Valid() && !(eofIn0 && eofOut0)
      modifies this, state, state.buffer
      ensures state.buffer == old(state.buffer) || fresh(state.buffer)
      ensures !stop && !state.broken ==> Valid()
      ensures state.Valid()
      ensures !stop && !state.broken ==> refills == old(refills) + (if env.tick && state.rateLimit > 0 then 1 else 0)
      ensures !stop && !state.broken ==> totalWritten >= old(totalWritten)
      ensures !stop && !state.broken && !old(Over(env)) && old(state.Ends(eofIn0, eofOut0)) ==>
        state.Ends(eofIn, eofOut)
      ensures old(Over(env)) ==> !stop && eofIn && eofOut && state.Now() == old(state.Now()) && !state.broken
      ensures !old(Over(env)) ==>
        Does(old(state.Start()), state.bufferSize, old(Share(env)), eofIn0, eofOut0, env,
             state.Now(), eofIn, state.spliceUsed, state.broken)
      ensures stop ==> state.broken || env.select == SelectFailed(false)
      ensures old(state.bufferSize) <= state.bufferSize
      ensures Most() <= old(Most())
      ensures !stop && !state.broken && old(state.writePosition) == 0 ==> state.writePosition == 0
    {
      hide Conserved, SomeBlocks, EndsRight, Does, Quota;
      eofIn, eofOut := eofIn0, eofOut0;
      stop := false;
      var canSend, over := CanSend(env);
      var written := 0;
      if over {
        eofIn, eofOut := true, true;
      } else {
        var result: Option<nat>;
        result, eofIn, eofOut := state.PvTransfer(eofIn, eofOut, canSend, env);
        if result == None {
          return true, eofIn, eofOut;
        }
        written := result.value;
      }
      totalWritten := totalWritten + written;
      if state.rateLimit > 0 {
        target := target - written as real;
      }
    }

    // No limits, and nothing has gone wrong so far.
    ghost predicate Going(eofIn: bool)
      reads this, state, state.buffer
      requires state.Valid()
    {
      && state.writePosition == 0 && state.bufferSize > 0 && state.rateLimit == 0 && !Stops()
      && Steady(state.Now(), eofIn, state.spliceUsed)
    }

    lemma GoingAtFirst()
      requires Valid() && Unlimited() && state.offers == []
      ensures Going(false) && Left(state.Now(), false) == 1
    {
    }

    lemma LeftInBuffer(eofIn: bool)
      requires state.Valid()
      ensures Left(state.Now(), eofIn) == state.readPosition - state.writePosition + (if eofIn then 0 else 1)
      ensures Left(state.Now(), eofIn) <= Most() + 1
    {
    }

    lemma NoShare(env: Env)
      requires Valid() && state.rateLimit == 0 && !Stops()
      ensures Share(env) == 0 && !Over(env)
    {
    }

    lemma AllOutput()
      requires Valid() && Going(true) && state.Ends(true, true)
      ensures state.Waiting() == [] && state.output == Consumed(state.takings)
    {
      hide SomeBlocks, Loses, Kept, Consumed;
      KeptExactly(state.takings);
      assert state.output + [] == state.output;
    }

    // What a lively round keeps, and what it does at the end of the input.
    method RoundOn(env: Env, eofIn0: bool, eofOut0: bool) returns (stop: bool, eofIn: bool, eofOut: bool)
      requires Valid() && !(eofIn0 && eofOut0) && (!Stops() ==> state.Ends(eofIn0, eofOut0))
      modifies this, state, state.buffer
      ensures state.Valid() && (state.buffer == old(state.buffer) || fresh(state.buffer))
      ensures !stop ==> Valid() && (!Stops() ==> state.Ends(eofIn, eofOut))
      ensures !stop ==> old(refills) <= refills <= old(refills) + 1
      ensures !stop ==> Most() <= old(Most())
      ensures old(Going(eofIn0)) && Lively(env) ==> !stop && Going(eofIn)
      ensures old(Going(eofIn0)) && Lively(env) && AtEnd(env) ==>
        Left(state.Now(), eofIn) < old(Left(state.Now(), eofIn0))
    {
      hide Conserved, Does, SomeBlocks, Lively, AtEnd, Loses, Quota, Left, MainLoop.Share, MainLoop.Refilled;
      ghost var b := state.Start();
      if state.rateLimit == 0 && !Stops() {
        NoShare(env);
      }
      stop, eofIn, eofOut := Round(env, eofIn0, eofOut0);
      if old(Going(eofIn0)) && Lively(env) {
        LivelyRound(b, state.bufferSize, eofIn0, eofOut0, env, state.Now(), eofIn, state.spliceUsed, state.broken);
      }
      stop := stop || state.broken;
    }

    // One round, and the next input if this one is done. A lively round goes on without an error; at the end of the
    // input it brings the run closer to its end.
    method Turn(env: Env, eofIn0: bool, eofOut0: bool, n0: nat, files: nat)
      returns (stop: bool, eofIn: bool, eofOut: bool, n: nat)
      requires Valid() && !(eofIn0 && eofOut0) && n0 < Max(files, 1) && (!Stops() ==> state.Ends(eofIn0, eofOut0))
      modifies this, state, state.buffer
      ensures state.Valid() && (state.buffer == old(state.buffer) || fresh(state.buffer))
      ensures !stop ==> Valid() && (!Stops() ==> state.Ends(eofIn, eofOut)) && n < Max(files, 1)
      ensures !stop ==> old(refills) <= refills <= old(refills) + 1
      ensures !stop ==> Most() <= old(Most())
      ensures old(Going(eofIn0)) && Lively(env) ==> !stop && Going(eofIn)
      ensures old(Going(eofIn0)) && Lively(env) && AtEnd(env) && !(eofIn && eofOut) ==>
        Left(state.Now(), eofIn) - n < old(Left(state.Now(), eofIn0)) - n0
    {
      hide Conserved, SomeBlocks, Lively, AtEnd, Loses, Quota, Left;
      n := n0;
      stop, eofIn, eofOut := RoundOn(env, eofIn0, eofOut0);
      if !stop && eofIn && eofOut && n + 1 < files {
        n := n + 1;
        NoneBlocks();
        LeftInBuffer(true);
        state.NextFile(env.sameInput);
        eofIn, eofOut := false, false;
        LeftInBuffer(false);
      }
    }

    // All rounds over all input files, one element of envs each. With a rate limit the total never exceeds what the
    // refills allow; with a size to stop at it never exceeds that size; output then waiting bytes are the bytes taken
    // if and only if no call lost any. A run that ends, other than at that size, has output everything if and only if
    // no write call for the last input returned 0. A run that starts with a fresh state and without limits, whose
    // rounds are all lively and whose inputs are at their end for long enough, ends with everything output.
    method Loop(envs: seq<Env>, files: nat) returns (stop: bool, ended: bool)
      requires Valid() && totalWritten == 0 && refills == 0 && state.offers == []
      modifies this, state, state.buffer
      ensures !stop ==> Valid()
      ensures !stop && state.rateLimit > 0 ==> totalWritten * 10 <= refills * state.rateLimit
      ensures !stop ==> refills <= |envs|
      ensures !stop && Stops() ==> totalWritten <= size
      ensures !stop ==> state.output + state.Waiting() == Kept(state.takings)
      ensures !stop ==>
        (state.output + state.Waiting() == Consumed(state.takings) <==>
         forall k :: 0 <= k < |state.takings| ==> !Loses(state.takings[k]))
      ensures !stop && ended && !Stops() ==> (state.Waiting() == [] <==> !state.Stuck())
      ensures old(Unlimited()) && AllLively(envs) && Quiet(envs) >= old(Most()) + Max(files, 1) ==>
        !stop && ended && state.Waiting() == [] && state.output == Consumed(state.takings)
    {
      hide Kept, Consumed, Loses, SomeBlocks, Lively, AtEnd, Quota, Left, Steady;
      var eofIn, eofOut, n, i := false, false, 0, 0;
      stop := false;
      ghost var lively := Unlimited() && AllLively(envs);
      ghost var quiet := |envs| - Quiet(envs);
      NoneBlocks();
      if lively {
        GoingAtFirst();
      }
      while i < |envs| && !(eofIn && eofOut)
        invariant 0 <= i <= |envs| && 0 <= n < Max(files, 1)
        invariant Valid() && refills <= i && (state.buffer == old(state.buffer) || fresh(state.buffer))
        invariant !Stops() ==> state.Ends(eofIn, eofOut)
        invariant Most() <= old(Most())
        invariant lively ==> Going(eofIn)
        invariant lively && i >= quiet && !(eofIn && eofOut) ==>
          Left(state.Now(), eofIn) - n <= old(Most()) + 1 - (i - quiet)
        decreases |envs| - i
      {
        stop, eofIn, eofOut, n := Turn(envs[i], eofIn, eofOut, n, files);
        if stop {
          return true, true;
        }
        LeftInBuffer(eofIn);
        i := i + 1;
      }
      LeftInBuffer(eofIn);
      QuotaIs(refills, state.rateLimit);
      KeptExactly(state.takings);
      ended := eofIn && eofOut;
      if lively && ended {
        AllOutput();
      }
    }
  }
}
