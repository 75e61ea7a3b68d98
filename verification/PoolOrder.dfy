// The order of the idle list: by the time at which each connection was last returned, over every run of the pool.
module PoolOrder {
  import opened Pool

  // When each connection was last given back for keeping.
  type Times = map<Conn, nat>

  // An open pool keeps what is put back without force.
  predicate Keeps(s: State, e: Event) { e.Put? && !e.force && !s.closed }

  function Noted(s: State, e: Event, now: nat, times: Times): Times
  {
    if Keeps(s, e) && At(s, e.id).Borrowed? then times[At(s, e.id).conn := now] else times
  }

  // The times after a run whose events happen at now, now + 1, and so on.
  function AllNoted(cfg: Config, s: State, es: seq<Event>, now: nat, times: Times): Times
    requires Runnable(cfg, s, es)
    decreases |es|
  {
    if es == [] then times else AllNoted(cfg, Step(cfg, s, es[0]), es[1..], now + 1, Noted(s, es[0], now, times))
  }

  // Newest first.
  ghost predicate Ordered(idle: seq<Conn>, times: Times, now: nat)
  {
    && (forall i :: 0 <= i < |idle| ==> idle[i] in times && times[idle[i]] < now)
    && (forall i, j :: 0 <= i < j < |idle| ==> times[idle[i]] > times[idle[j]])
  }

  lemma PartOrdered(idle: seq<Conn>, times: Times, now: nat, part: seq<Conn>)
    requires Ordered(idle, times, now)
    requires part == idle || part == [] || (idle != [] && (part == idle[1..] || part == idle[..|idle| - 1]))
    ensures forall later: nat :: later >= now ==> Ordered(part, times, later)
  {
  }

  // The list before put takes one out again.
  lemma PutOrdered(s: State, conn: Conn, now: nat, times: Times)
    requires conn !in s.idle && Ordered(s.idle, times, now)
    ensures Ordered([conn] + s.idle, times[conn := now], now + 1)
  {
    assert forall i :: 0 <= i < |s.idle| ==> s.idle[i] in s.idle;
    assert forall i :: 1 <= i <= |s.idle| ==> ([conn] + s.idle)[i] == s.idle[i - 1];
  }

  lemma BorrowedNotIdle(s: State, id: nat)
    requires Owned(s) && At(s, id).Borrowed?
    ensures At(s, id).conn !in s.idle
  {
    assert Has(s.callers, id);
  }

  // What a step does to the list.
  lemma IdleAfter(cfg: Config, s: State, e: Event)
    requires Enabled(cfg, s, e)
    ensures var idle, n := Step(cfg, s, e).idle, |s.idle|;
      if Keeps(s, e) then
        var all := [At(s, e.id).conn] + s.idle; idle == all || idle == all[..n]
      else idle == s.idle || idle == [] || (n > 0 && (idle == s.idle[1..] || idle == s.idle[..n - 1]))
  {
  }

  lemma StepOrdered(cfg: Config, s: State, e: Event, now: nat, times: Times)
    requires Inv(cfg, s) && Enabled(cfg, s, e) && Ordered(s.idle, times, now)
    ensures Ordered(Step(cfg, s, e).idle, Noted(s, e, now, times), now + 1)
  {
    hide Step, Channels, Counts, Owned, Ordered;
    IdleAfter(cfg, s, e);
    var idle, n := Step(cfg, s, e).idle, |s.idle|;
    if Keeps(s, e) {
      var conn := At(s, e.id).conn;
      BorrowedNotIdle(s, e.id);
      PutOrdered(s, conn, now, times);
      PartOrdered([conn] + s.idle, times[conn := now], now + 1, idle);
    } else {
      PartOrdered(s.idle, times, now, idle);
    }
  }
  lemma {:induction false} RunOrdered(cfg: Config, s: State, es: seq<Event>, now: nat, times: Times)
    requires Inv(cfg, s) && Runnable(cfg, s, es) && Ordered(s.idle, times, now)
    ensures Ordered(Run(cfg, s, es).idle, AllNoted(cfg, s, es, now, times), now + |es|)
    decreases |es|
  {
    hide Inv, Step, Enabled, Ordered, Noted;
    if es != [] {
      StepInv(cfg, s, es[0]);
      StepOrdered(cfg, s, es[0], now, times);
      RunOrdered(cfg, Step(cfg, s, es[0]), es[1..], now + 1, Noted(s, es[0], now, times));
    }
  }

  // When each connection was last returned in a run from the beginning.
  function Returned(cfg: Config, es: seq<Event>): Times
    requires Runnable(cfg, Initial, es)
  {
    AllNoted(cfg, Initial, es, 0, map[])
  }

  // Over every run the idle list is ordered by the time of the last return, strictly, newest first.
  lemma NewestFirst(cfg: Config, es: seq<Event>)
    requires Runnable(cfg, Initial, es)
    ensures Ordered(Run(cfg, Initial, es).idle, Returned(cfg, es), |es|)
  {
    hide Run, AllNoted, Inv;
    InitialInv(cfg);
    RunOrdered(cfg, Initial, es, 0, map[]);
  }

  // Hence the one at the back tells whether any has been idle since before a given time.
  lemma BackIsOldest(cfg: Config, es: seq<Event>, since: nat)
    requires Runnable(cfg, Initial, es)
    ensures var idle, times := Run(cfg, Initial, es).idle, Returned(cfg, es);
      && (forall c :: c in idle ==> c in times)
      && (idle == [] || times[idle[|idle| - 1]] >= since <==> forall c :: c in idle ==> times[c] >= since)
  {
    hide Run, Returned;
    NewestFirst(cfg, es);
    var idle := Run(cfg, Initial, es).idle;
    if idle != [] {
      assert idle[|idle| - 1] in idle;
    }
  }

  ghost predicate OlderThanAll(conn: Conn, others: seq<Conn>, times: Times)
  {
    conn in times && forall c :: c in others ==> c in times && times[conn] < times[c]
  }

  ghost predicate NewerThanAll(conn: Conn, others: seq<Conn>, times: Times)
  {
    conn in times && forall c :: c in others ==> c in times && times[c] < times[conn]
  }

  lemma LastIsOldest(idle: seq<Conn>, times: Times, now: nat)
    requires idle != [] && Ordered(idle, times, now)
    ensures var rest, last := idle[..|idle| - 1], idle[|idle| - 1];
      multiset(idle) == multiset(rest) + multiset{last} && OlderThanAll(last, rest, times)
  {
    assert idle == idle[..|idle| - 1] + [idle[|idle| - 1]];
  }

  lemma FirstIsNewest(idle: seq<Conn>, times: Times, now: nat)
    requires idle != [] && Ordered(idle, times, now)
    ensures multiset(idle) == multiset(idle[1..]) + multiset{idle[0]} && NewerThanAll(idle[0], idle[1..], times)
  {
    assert idle == [idle[0]] + idle[1..];
  }

  lemma PutResult(cfg: Config, s: State, id: nat)
    requires At(s, id).Borrowed? && !s.closed
    ensures var s', all := Step(cfg, s, Put(id, false)), [At(s, id).conn] + s.idle;
      if |all| > cfg.maxIdle then s'.idle == all[..|s.idle|] && At(s', id) == Evicting(all[|s.idle|])
      else s'.idle == all && At(s', id) == Finished
  {
  }

  lemma PutSplits(cfg: Config, s: State, id: nat, now: nat, times: Times)
    requires At(s, id).Borrowed? && !s.closed && Owned(s) && Ordered(s.idle, times, now) && |s.idle| <= cfg.maxIdle
    ensures var s', conn := Step(cfg, s, Put(id, false)), At(s, id).conn;
      PutByAge(cfg, s.idle, conn, s'.idle, At(s', id), times[conn := now])
  {
    hide Step, Ordered, Owned, OlderThanAll;
    var conn := At(s, id).conn;
    PutResult(cfg, s, id);
    BorrowedNotIdle(s, id);
    PutOrdered(s, conn, now, times);
    LastIsOldest([conn] + s.idle, times[conn := now], now + 1);
    assert ([conn] + s.idle)[0] == conn;
  }

  // What put does to the connections of an open pool. Nothing is lost or made up, the returned connection is kept if
  // any may be, and the one to be closed was returned before every one that is left.
  ghost predicate PutByAge(cfg: Config, idle: seq<Conn>, conn: Conn, idle': seq<Conn>, after: Caller, times: Times)
  {
    && (after.Evicting? <==> |idle| == cfg.maxIdle) && (!after.Evicting? ==> after == Finished)
    && multiset(idle') + (if after.Evicting? then multiset{after.conn} else multiset{})
       == multiset(idle) + multiset{conn}
    && (cfg.maxIdle > 0 ==> conn in idle')
    && (after.Evicting? ==> OlderThanAll(after.conn, idle', times))
  }

  // That holds in every reachable state; by force, or in a closed pool, the connection itself is closed.
  lemma PutEvictsOldest(cfg: Config, es: seq<Event>, id: nat, force: bool)
    requires Runnable(cfg, Initial, es) && At(Run(cfg, Initial, es), id).Borrowed?
    ensures var s := Run(cfg, Initial, es);
      var s', conn := Step(cfg, s, Put(id, force)), At(s, id).conn;
      if s.closed || force then s'.idle == s.idle && At(s', id) == Evicting(conn)
      else PutByAge(cfg, s.idle, conn, s'.idle, At(s', id), Returned(cfg, es)[conn := |es|])
  {
    hide Run, Returned, Channels, Ordered, Owned, PutByAge, BusyCallers, Holders;
    InitialInv(cfg);
    RunInv(cfg, Initial, es);
    NewestFirst(cfg, es);
    var s := Run(cfg, Initial, es);
    if !s.closed && !force {
      PutSplits(cfg, s, id, |es|, Returned(cfg, es));
    }
  }

  // get takes the connection returned last, and prunes the one returned first.
  lemma ChooseByAge(cfg: Config, es: seq<Event>, id: nat, stale: bool)
    requires Runnable(cfg, Initial, es) && Enabled(cfg, Run(cfg, Initial, es), Choose(id, stale))
    requires Run(cfg, Initial, es).idle != []
    ensures var s, times := Run(cfg, Initial, es), Returned(cfg, es);
      var s' := Step(cfg, s, Choose(id, stale));
      var after := At(s', id);
      && (if stale then after.Pruning? else after.Testing?)
      && multiset(s.idle) == multiset(s'.idle) + multiset{after.conn}
      && (if stale then OlderThanAll(after.conn, s'.idle, times) else NewerThanAll(after.conn, s'.idle, times))
  {
    hide Run, Returned, AllNoted, Ordered, OlderThanAll, NewerThanAll;
    NewestFirst(cfg, es);
    var s, times := Run(cfg, Initial, es), Returned(cfg, es);
    LastIsOldest(s.idle, times, |es|);
    FirstIsNewest(s.idle, times, |es|);
  }

  // ---------- a whole get ----------

  // The events of a get that no one interferes with, up to taking the mutex.
  function Entering(cfg: Config, id: nat): seq<Event>
  {
    [Arrive(id), LazyInit(id)] + if cfg.Limited() then [Receive(id)] else []
  }

  // There is a token, or none is needed.
  predicate HasRoom(cfg: Config, s: State)
  {
    cfg.Limited() && s.ch.Open? ==> s.ch.tokens > 0
  }

  lemma Enters(cfg: Config, s: State, id: nat)
    requires id !in s.callers && HasRoom(cfg, s)
    ensures Runnable(cfg, s, Entering(cfg, id))
    ensures var s' := Run(cfg, s, Entering(cfg, id));
      && s' == s.(callers := s'.callers, ch := s'.ch) && At(s', id) == Entered
      && forall k :: k != id ==> At(s', k) == At(s, k)
  {
    var s1 := Step(cfg, s, Arrive(id));
    RunOne(cfg, s1, LazyInit(id));
    var s2 := Step(cfg, s1, LazyInit(id));
    if cfg.Limited() {
      RunOne(cfg, s2, Receive(id));
      assert Entering(cfg, id)[1..] == [LazyInit(id), Receive(id)];
      assert [LazyInit(id), Receive(id)][1..] == [Receive(id)];
    } else {
      assert Entering(cfg, id)[1..] == [LazyInit(id)];
    }
  }

  lemma RunOne(cfg: Config, s: State, e: Event)
    requires Enabled(cfg, s, e)
    ensures Runnable(cfg, s, [e]) && Run(cfg, s, [e]) == Step(cfg, s, e)
  {
    assert [e][1..] == [];
  }

  lemma {:induction false} RunAppend(cfg: Config, s: State, xs: seq<Event>, ys: seq<Event>)
    requires Runnable(cfg, s, xs) && Runnable(cfg, Run(cfg, s, xs), ys)
    ensures Runnable(cfg, s, xs + ys) && Run(cfg, s, xs + ys) == Run(cfg, Run(cfg, s, xs), ys)
    decreases |xs|
  {
    hide Step, Enabled;
    if xs == [] {
      assert xs + ys == ys;
    } else {
      assert (xs + ys)[1..] == xs[1..] + ys;
      RunAppend(cfg, Step(cfg, s, xs[0]), xs[1..], ys);
    }
  }

  lemma RunTwo(cfg: Config, s: State, e: Event, e': Event)
    requires Enabled(cfg, s, e) && Enabled(cfg, Step(cfg, s, e), e')
    ensures Runnable(cfg, s, [e, e']) && Run(cfg, s, [e, e']) == Step(cfg, Step(cfg, s, e), e')
  {
    hide Step, Enabled;
    assert [e, e'][1..] == [e'];
    RunOne(cfg, Step(cfg, s, e), e');
  }

  // The whole of a get that takes an idle connection, or dials.
  function GetIdle(cfg: Config, id: nat): seq<Event> { Entering(cfg, id) + [Choose(id, false), Tested(id, true)] }

  function GetNew(cfg: Config, id: nat): seq<Event> { Entering(cfg, id) + [Choose(id, false), Dialled(id, true)] }

  lemma GetIdleRuns(cfg: Config, s: State, id: nat)
    requires id !in s.callers && HasRoom(cfg, s) && s.idle != []
    ensures Runnable(cfg, s, GetIdle(cfg, id))
    ensures var b := Run(cfg, s, GetIdle(cfg, id)); At(b, id) == Borrowed(s.idle[0]) && b.idle == s.idle[1..]
  {
    Enters(cfg, s, id);
    hide Run, Runnable;
    var e := Run(cfg, s, Entering(cfg, id));
    RunTwo(cfg, e, Choose(id, false), Tested(id, true));
    RunAppend(cfg, s, Entering(cfg, id), [Choose(id, false), Tested(id, true)]);
  }

  // In every reachable state, a get that no one interferes with borrows the idle connection that was returned last, if
  // there is one and it passes the test.
  lemma GetBorrowsNewest(cfg: Config, es: seq<Event>, id: nat)
    requires Runnable(cfg, Initial, es)
    requires var s := Run(cfg, Initial, es); id !in s.callers && HasRoom(cfg, s) && s.idle != []
    ensures var s := Run(cfg, Initial, es);
      && Runnable(cfg, s, GetIdle(cfg, id))
      && var b := Run(cfg, s, GetIdle(cfg, id));
      && At(b, id).Borrowed? && multiset(b.idle) + multiset{At(b, id).conn} == multiset(s.idle)
      && NewerThanAll(At(b, id).conn, b.idle, Returned(cfg, es))
  {
    hide Run, Returned, Ordered;
    NewestFirst(cfg, es);
    var s := Run(cfg, Initial, es);
    GetIdleRuns(cfg, s, id);
    FirstIsNewest(s.idle, Returned(cfg, es), |es|);
  }

  // With no idle connection it borrows a new one, when it can be dialled and the pool is neither closed nor exhausted.
  lemma GetDials(cfg: Config, s: State, id: nat)
    requires Inv(cfg, s) && id !in s.callers && HasRoom(cfg, s) && s.idle == [] && !s.closed
    requires cfg.wait || cfg.maxActive == 0 || s.active < cfg.maxActive
    ensures Runnable(cfg, s, GetNew(cfg, id))
    ensures var b := Run(cfg, s, GetNew(cfg, id));
      && At(b, id).Borrowed? && b.idle == [] && b.active == s.active + 1
      && forall k :: Has(s.callers, k) ==> At(b, k) == At(s, k) && At(b, k).conn != At(b, id).conn
  {
    hide Channels, Counts, IdleOwned;
    Enters(cfg, s, id);
    hide Run, Runnable;
    var e := Run(cfg, s, Entering(cfg, id));
    RunTwo(cfg, e, Choose(id, false), Dialled(id, true));
    RunAppend(cfg, s, Entering(cfg, id), [Choose(id, false), Dialled(id, true)]);
  }

  // Returned and got again, at once and while there is a place in the list, it is the same connection.
  lemma PutThenGet(cfg: Config, es: seq<Event>, a: nat, id: nat)
    requires Runnable(cfg, Initial, es)
    requires var s := Run(cfg, Initial, es);
      At(s, a).Borrowed? && !s.closed && |s.idle| < cfg.maxIdle && id !in s.callers
    ensures var s := Run(cfg, Initial, es);
      var events := [Put(a, false)] + GetIdle(cfg, id);
      && Runnable(cfg, s, events)
      && At(Run(cfg, s, events), id) == At(s, a) && Run(cfg, s, events).idle == s.idle
  {
    var s := Run(cfg, Initial, es);
    InitialInv(cfg);
    RunInv(cfg, Initial, es);
    var s1 := Step(cfg, s, Put(a, false));
    PutResult(cfg, s, a);
    PutHasRoom(cfg, s, a);
    GetIdleRuns(cfg, s1, id);
    RunOne(cfg, s, Put(a, false));
    RunAppend(cfg, s, [Put(a, false)], GetIdle(cfg, id));
  }

  lemma PutHasRoom(cfg: Config, s: State, a: nat)
    requires Inv(cfg, s) && At(s, a).Borrowed? && !s.closed && |s.idle| < cfg.maxIdle
    ensures HasRoom(cfg, Step(cfg, s, Put(a, false)))
    ensures forall id :: id !in s.callers ==> id !in Step(cfg, s, Put(a, false)).callers
  {
    hide Owned, Counts;
    StepChannels(cfg, s, Put(a, false));
  }

  // The tail of a get that skips a connection.
  function Skipping(id: nat): seq<Event>
  {
    [Choose(id, false), Tested(id, false)] + [Choose(id, false), Tested(id, true)]
  }

  lemma Skips(cfg: Config, e: State, id: nat)
    requires At(e, id) == Entered && |e.idle| >= 2
    ensures Runnable(cfg, e, Skipping(id))
    ensures var b := Run(cfg, e, Skipping(id));
      && At(b, id) == Borrowed(e.idle[1]) && b.idle == e.idle[2..] && b.active == e.active - 1
      && forall k :: k != id ==> At(b, k) == At(e, k)
  {
    hide Run, Runnable;
    RunTwo(cfg, e, Choose(id, false), Tested(id, false));
    var bad := Run(cfg, e, [Choose(id, false), Tested(id, false)]);
    assert At(bad, id) == Discarding(e.idle[0]) && bad.idle == e.idle[1..] && bad.active == e.active;
    assert forall k :: k != id ==> At(bad, k) == At(e, k);
    RunTwo(cfg, bad, Choose(id, false), Tested(id, true));
    RunAppend(cfg, e, [Choose(id, false), Tested(id, false)], [Choose(id, false), Tested(id, true)]);
    assert e.idle[1..][0] == e.idle[1] && e.idle[1..][1..] == e.idle[2..];
  }

  // A connection that fails the test is dropped, and the next one is taken.
  lemma GetSkipsBad(cfg: Config, s: State, id: nat)
    requires Inv(cfg, s) && id !in s.callers && HasRoom(cfg, s) && |s.idle| >= 2
    ensures Runnable(cfg, s, Entering(cfg, id) + Skipping(id))
    ensures var b := Run(cfg, s, Entering(cfg, id) + Skipping(id));
      && At(b, id) == Borrowed(s.idle[1]) && b.idle == s.idle[2..] && b.active == s.active - 1
      && s.idle[0] !in b.idle && forall k :: At(b, k).HasConn() ==> At(b, k).conn != s.idle[0]
  {
    hide Channels, Counts, Owned, HasRoom, Run, Runnable, Step, Entering, Skipping;
    Enters(cfg, s, id);
    var e := Run(cfg, s, Entering(cfg, id));
    Skips(cfg, e, id);
    RunAppend(cfg, s, Entering(cfg, id), Skipping(id));
    FirstIsOnlyIdle(s);
  }

  lemma FirstIsOnlyIdle(s: State)
    requires Owned(s) && s.idle != []
    ensures s.idle[0] !in s.idle[1..] && (|s.idle| >= 2 ==> s.idle[0] !in s.idle[2..] && s.idle[0] != s.idle[1])
    ensures forall k :: At(s, k).HasConn() ==> At(s, k).conn != s.idle[0]
  {
    assert s.idle[0] in s.idle;
    assert forall k :: At(s, k).HasConn() ==> Has(s.callers, k);
  }

  // A get of a closed pool, or of an exhausted one that does not wait, ends without a connection and changes nothing.
  lemma GetRefused(cfg: Config, s: State, id: nat)
    requires Inv(cfg, s) && id !in s.callers && HasRoom(cfg, s)
    requires s.closed || (s.idle == [] && !cfg.wait && 0 < cfg.maxActive <= s.active)
    ensures var events := Entering(cfg, id) + [Choose(id, false)];
      && Runnable(cfg, s, events)
      && var b := Run(cfg, s, events);
      && At(b, id) == Finished && b.idle == s.idle && b.active == s.active && b.closed == s.closed
  {
    hide Counts, Owned;
    Enters(cfg, s, id);
    hide Run, Runnable;
    var e := Run(cfg, s, Entering(cfg, id));
    RunOne(cfg, e, Choose(id, false));
    RunAppend(cfg, s, Entering(cfg, id), [Choose(id, false)]);
  }

  // Once closed a pool stays closed, with no idle connection.
  lemma {:induction false} ClosedForGood(cfg: Config, s: State, es: seq<Event>)
    requires Inv(cfg, s) && Runnable(cfg, Step(cfg, s, ClosePool), es)
    ensures var b := Run(cfg, Step(cfg, s, ClosePool), es); b.closed && b.idle == []
  {
    hide Counts, Owned;
    StepInv(cfg, s, ClosePool);
    StepChannels(cfg, s, ClosePool);
    StaysClosed(cfg, Step(cfg, s, ClosePool), es);
  }

  lemma {:induction false} StaysClosed(cfg: Config, s: State, es: seq<Event>)
    requires Inv(cfg, s) && s.closed && Runnable(cfg, s, es)
    ensures Run(cfg, s, es).closed && Run(cfg, s, es).idle == []
    decreases |es|
  {
    hide Counts, Owned, Step, Enabled;
    if es != [] {
      StepInv(cfg, s, es[0]);
      ClosedAfter(cfg, s, es[0]);
      StaysClosed(cfg, Step(cfg, s, es[0]), es[1..]);
    }
  }

  lemma ClosedAfter(cfg: Config, s: State, e: Event)
    requires s.closed && Enabled(cfg, s, e)
    ensures Step(cfg, s, e).closed
  {
  }
}
