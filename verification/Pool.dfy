// The connection pool as a state machine. Every step is one region under the pool's mutex, or one channel receive, or
// the outcome of work done outside the mutex; any number of callers interleave at step boundaries.
module Pool {
  import opened Basics

  type Conn = nat

  datatype Config = Config(maxActive: nat, maxIdle: nat, wait: bool)
  {
    // Only then is there a token channel.
    predicate Limited() { wait && maxActive > 0 }
  }

  // One caller, from Get to the Close of the connection it got.
  datatype Caller =
    | Arrived                  // about to call get
    | Waiting                  // at the receive from ch
    | Entered                  // past the receive, about to take the mutex
    | Pruning(conn: Conn)      // popped a stale connection, closing it without the mutex
    | Testing(conn: Conn)      // popped the front connection, testing it without the mutex
    | Discarding(conn: Conn)   // the test failed, closing the connection without the mutex
    | Dialing                  // counted in active, dialling without the mutex
    | Borrowed(conn: Conn)     // the application has the connection
    | Evicting(conn: Conn)     // in put, closing a connection without the mutex
    | Finished
  {
    // Accounts for one unit of active.
    predicate Busy() { Pruning? || Testing? || Discarding? || Dialing? || Borrowed? || Evicting? }

    // Has taken a token and not returned it.
    predicate Holder() { Entered? || Busy() }

    predicate HasConn() { Busy() && !Dialing? }
  }

  datatype Channel = NoChannel | Open(tokens: nat) | ClosedChannel

  // What must never happen: a panic of the Go runtime, or a send that blocks while the mutex is held.
  datatype Fault = NoFault | SendOnClosed | CloseTwice | BlockedSend

  datatype State = State(
    closed: bool,
    active: int,
    ch: Channel,
    idle: seq<Conn>,            // front first
    callers: map<nat, Caller>,
    dialled: nat,               // connections made so far; the next one gets this name
    fault: Fault)

  const Initial := State(false, 0, NoChannel, [], map[], 0, NoFault)

  datatype Event =
    | Arrive(id: nat)
    | LazyInit(id: nat)
    | Receive(id: nat)
    | Cancel(id: nat)                     // the context expired while waiting
    | Choose(id: nat, stale: bool)        // stale: the back of the idle list has been idle too long
    | Tested(id: nat, good: bool)
    | Dialled(id: nat, good: bool)
    | Put(id: nat, force: bool)
    | PutEnd(id: nat)
    | ClosePool

  // ---------- steps ----------

  function At(s: State, id: nat): Caller
  {
    if id in s.callers then s.callers[id] else Finished
  }

  function Move(s: State, id: nat, c: Caller): State
  {
    s.(callers := s.callers[id := c])
  }

  // Gives a token back, unless there is no channel or the pool is closed.
  function ReturnToken(cfg: Config, s: State): State
  {
    if s.ch == NoChannel || s.closed then s
    else if s.ch == ClosedChannel then s.(fault := SendOnClosed)
    else if s.ch.tokens >= cfg.maxActive then s.(fault := BlockedSend)
    else s.(ch := Open(s.ch.tokens + 1))
  }

  // The part of get between two releases of the mutex: prune a stale connection, else take the front one, else give up
  // or dial.
  function ChooseNext(cfg: Config, s: State, id: nat, stale: bool): State
  {
    if stale && s.idle != [] then
      Move(s, id, Pruning(s.idle[|s.idle| - 1])).(idle := s.idle[..|s.idle| - 1])
    else if s.idle != [] then
      Move(s, id, Testing(s.idle[0])).(idle := s.idle[1..])
    else if s.closed || (!cfg.wait && cfg.maxActive > 0 && s.active >= cfg.maxActive) then
      Move(s, id, Finished)
    else
      Move(s, id, Dialing).(active := s.active + 1)
  }

  predicate Enabled(cfg: Config, s: State, e: Event)
  {
    match e
    case Arrive(id) => id !in s.callers
    case LazyInit(id) => At(s, id) == Arrived && id in s.callers
    case Receive(id) => At(s, id) == Waiting && (s.ch == ClosedChannel || (s.ch.Open? && s.ch.tokens > 0))
    case Cancel(id) => At(s, id) == Waiting
    case Choose(id, stale) => At(s, id) == Entered || At(s, id).Pruning? || (At(s, id).Discarding? && !stale)
    case Tested(id, _) => At(s, id).Testing?
    case Dialled(id, _) => At(s, id) == Dialing
    case Put(id, _) => At(s, id).Borrowed?
    case PutEnd(id) => At(s, id).Evicting?
    case ClosePool => true
  }

  function Step(cfg: Config, s: State, e: Event): State
    requires Enabled(cfg, s, e)
  {
    match e
    case Arrive(id) => Move(s, id, Arrived)
    case LazyInit(id) =>
      if !cfg.Limited() then Move(s, id, Entered)
      else if s.ch != NoChannel then Move(s, id, Waiting)
      else Move(s, id, Waiting).(ch := if s.closed then ClosedChannel else Open(cfg.maxActive))
    case Receive(id) =>
      Move(s, id, Entered).(ch := if s.ch.Open? then Open(s.ch.tokens - 1) else s.ch)
    case Cancel(id) => Move(s, id, Finished)
    case Choose(id, stale) =>
      ChooseNext(cfg, if At(s, id) == Entered then s else s.(active := s.active - 1), id, stale)
    case Tested(id, good) =>
      Move(s, id, if good then Borrowed(s.callers[id].conn) else Discarding(s.callers[id].conn))
    case Dialled(id, good) =>
      if good then Move(s, id, Borrowed(s.dialled)).(dialled := s.dialled + 1)
      else ReturnToken(cfg, Move(s, id, Finished).(active := s.active - 1))
    case Put(id, force) =>
      var conn := s.callers[id].conn;
      if s.closed || force then Move(s, id, Evicting(conn))
      else
        var idle := [conn] + s.idle;
        if |idle| > cfg.maxIdle then
          Move(s, id, Evicting(idle[|idle| - 1])).(idle := idle[..|idle| - 1])
        else ReturnToken(cfg, Move(s, id, Finished).(idle := idle))
    case PutEnd(id) => ReturnToken(cfg, Move(s, id, Finished).(active := s.active - 1))
    case ClosePool =>
      if s.closed then s
      else if s.ch == ClosedChannel then s.(fault := CloseTwice)
      else s.(closed := true, active := s.active - |s.idle|, idle := [],
              ch := if s.ch == NoChannel then NoChannel else ClosedChannel)
  }

  // ---------- counting callers ----------

  ghost function BusyCallers(m: map<nat, Caller>): set<nat> { set id | id in m && m[id].Busy() }

  ghost function Holders(m: map<nat, Caller>): set<nat> { set id | id in m && m[id].Holder() }

  function One(b: bool): int { if b then 1 else 0 }

  lemma CountMove(m: map<nat, Caller>, id: nat, c: Caller)
    ensures var before := if id in m then m[id] else Finished;
      && |BusyCallers(m[id := c])| == |BusyCallers(m)| - One(before.Busy()) + One(c.Busy())
      && |Holders(m[id := c])| == |Holders(m)| - One(before.Holder()) + One(c.Holder())
  {
    CountOne(BusyCallers(m), BusyCallers(m[id := c]), id);
    CountOne(Holders(m), Holders(m[id := c]), id);
  }

  lemma CountOne(a: set<nat>, b: set<nat>, id: nat)
    requires forall x :: x != id ==> (x in a <==> x in b)
    ensures |b| == |a| - One(id in a) + One(id in b)
  {
    assert a - {id} == b - {id};
    assert |a - {id}| == |a| - One(id in a);
    assert |b - {id}| == |b| - One(id in b);
  }

  lemma BusyAreHolders(m: map<nat, Caller>)
    ensures |BusyCallers(m)| <= |Holders(m)|
    ensures forall id :: id in m && m[id] == Entered ==> |BusyCallers(m)| + 1 <= |Holders(m)|
  {
    SubsetSize(BusyCallers(m), Holders(m));
    forall id | id in m && m[id] == Entered
      ensures |BusyCallers(m)| + 1 <= |Holders(m)|
    {
      SubsetSize(BusyCallers(m) + {id}, Holders(m));
    }
  }

  lemma {:induction false} SubsetSize(a: set<nat>, b: set<nat>)
    requires a <= b
    ensures |a| <= |b|
  {
    assert b == a + (b - a);
  }

  // ---------- the invariant ----------

  ghost predicate Counts(cfg: Config, s: State)
  {
    // every open connection is idle, with a caller, being dialled or being closed
    && s.active == |s.idle| + |BusyCallers(s.callers)|
    // tokens are neither lost nor duplicated
    && (s.ch.Open? ==> s.ch.tokens + |Holders(s.callers)| == cfg.maxActive)
    && (cfg.maxActive > 0 ==> s.active <= cfg.maxActive)
    && |s.idle| <= cfg.maxIdle
  }

  ghost predicate Channels(cfg: Config, s: State)
  {
    && s.fault == NoFault
    && (s.ch != NoChannel ==> cfg.Limited())
    && (s.ch.Open? ==> !s.closed)
    && (s.ch == ClosedChannel ==> s.closed)
    && (cfg.Limited() && s.ch == NoChannel ==> Holders(s.callers) == {})
    && (s.closed ==> s.idle == [])
  }

  // A connection is in one place: once in the idle list, or with one caller.
  ghost predicate IdleOwned(idle: seq<Conn>, dialled: nat)
  {
    && (forall i :: 0 <= i < |idle| ==> idle[i] < dialled)
    && (forall i, j :: 0 <= i < j < |idle| ==> idle[i] != idle[j])
  }

  predicate Has(m: map<nat, Caller>, id: nat) { id in m && m[id].HasConn() }

  ghost predicate CallersOwn(idle: seq<Conn>, m: map<nat, Caller>, dialled: nat)
  {
    && (forall id :: Has(m, id) ==> m[id].conn < dialled && m[id].conn !in idle)
    && (forall id, id' :: (Has(m, id) && Has(m, id') && id != id') ==> m[id].conn != m[id'].conn)
  }

  ghost predicate Owned(s: State)
  {
    IdleOwned(s.idle, s.dialled) && CallersOwn(s.idle, s.callers, s.dialled)
  }

  ghost predicate Inv(cfg: Config, s: State)
  {
    Channels(cfg, s) && Counts(cfg, s) && Owned(s)
  }

  lemma InitialInv(cfg: Config)
    ensures Inv(cfg, Initial)
  {
    assert BusyCallers(map[]) == {} && Holders(map[]) == {};
  }

  // All steps but ClosePool change one caller; this is what that does to the counts.
  lemma MoverCounts(cfg: Config, s: State, e: Event)
    requires Enabled(cfg, s, e) && !e.ClosePool?
    ensures var s' := Step(cfg, s, e);
      var before, after := At(s, e.id), At(s', e.id);
      && |BusyCallers(s'.callers)| == |BusyCallers(s.callers)| - One(before.Busy()) + One(after.Busy())
      && |Holders(s'.callers)| == |Holders(s.callers)| - One(before.Holder()) + One(after.Holder())
  {
    hide BusyCallers, Holders;
    var s' := Step(cfg, s, e);
    CountMove(s.callers, e.id, At(s', e.id));
    assert s'.callers == s.callers[e.id := At(s', e.id)];
  }

  lemma StepCounts(cfg: Config, s: State, e: Event)
    requires Inv(cfg, s) && Enabled(cfg, s, e)
    ensures Counts(cfg, Step(cfg, s, e))
  {
    hide Owned, BusyCallers, Holders;
    if !e.ClosePool? {
      BusyAreHolders(s.callers);
      MoverCounts(cfg, s, e);
      NoHolders(s.callers);
    }
  }

  lemma StepChannels(cfg: Config, s: State, e: Event)
    requires Inv(cfg, s) && Enabled(cfg, s, e)
    ensures Channels(cfg, Step(cfg, s, e))
  {
    hide Owned, BusyCallers, Holders;
    if !e.ClosePool? {
      MoverCounts(cfg, s, e);
      NoHolders(s.callers);
      NoHolders(Step(cfg, s, e).callers);
    }
  }

  lemma NoHolders(m: map<nat, Caller>)
    ensures Holders(m) == {} <==> |Holders(m)| == 0
  {
  }

  // The caller keeps its connection or drops it.
  lemma OwnedKeep(s: State, id: nat, c: Caller)
    requires Owned(s) && (c.HasConn() ==> Has(s.callers, id) && s.callers[id].conn == c.conn)
    ensures CallersOwn(s.idle, s.callers[id := c], s.dialled)
  {
    var m := s.callers[id := c];
    assert forall k :: Has(m, k) ==> Has(s.callers, k) && m[k].conn == s.callers[k].conn;
  }

  // The caller takes a connection out of the idle list, dropping the one it had.
  lemma OwnedTake(idle: seq<Conn>, m: map<nat, Caller>, dialled: nat, id: nat, k: nat, c: Caller)
    requires IdleOwned(idle, dialled) && CallersOwn(idle, m, dialled)
    requires k < |idle| && c.HasConn() && c.conn == idle[k]
    ensures IdleOwned(Without(idle, k), dialled) && CallersOwn(Without(idle, k), m[id := c], dialled)
  {
    var rest, m' := Without(idle, k), m[id := c];
    assert forall i :: 0 <= i < |rest| ==> rest[i] == idle[if i < k then i else i + 1];
    assert forall x :: x in rest ==> x in idle;
    assert forall j :: Has(m', j) && j != id ==> Has(m, j) && m'[j].conn == m[j].conn;
    assert idle[k] in idle;
  }

  // The caller's connection goes to the front of the idle list.
  lemma OwnedPut(s: State, id: nat)
    requires Owned(s) && Has(s.callers, id)
    ensures var idle := [s.callers[id].conn] + s.idle;
      IdleOwned(idle, s.dialled) && CallersOwn(idle, s.callers[id := Finished], s.dialled)
  {
    var conn := s.callers[id].conn;
    var idle, m := [conn] + s.idle, s.callers[id := Finished];
    assert forall i :: 1 <= i < |idle| ==> idle[i] == s.idle[i - 1];
    assert forall x :: x in idle ==> x == conn || x in s.idle;
    assert forall k :: Has(m, k) ==> k != id && Has(s.callers, k) && m[k].conn == s.callers[k].conn;
    forall i | 0 <= i < |s.idle|
      ensures s.idle[i] != conn
    {
      assert s.idle[i] in s.idle;
    }
  }

  // A new connection is nobody else's.
  lemma OwnedNew(s: State, id: nat)
    requires Owned(s)
    ensures IdleOwned(s.idle, s.dialled + 1)
    ensures CallersOwn(s.idle, s.callers[id := Borrowed(s.dialled)], s.dialled + 1)
  {
    var m := s.callers[id := Borrowed(s.dialled)];
    assert forall k :: Has(m, k) && k != id ==> Has(s.callers, k) && m[k].conn == s.callers[k].conn;
    assert forall x :: x in s.idle ==> x < s.dialled;
  }

  lemma ChooseOwned(cfg: Config, s: State, id: nat, stale: bool)
    requires Owned(s)
    ensures Owned(ChooseNext(cfg, s, id, stale))
  {
    hide IdleOwned, CallersOwn;
    var s' := ChooseNext(cfg, s, id, stale);
    if s.idle != [] {
      var k := if stale then |s.idle| - 1 else 0;
      assert s'.idle == Without(s.idle, k);
      OwnedTake(s.idle, s.callers, s.dialled, id, k, s'.callers[id]);
    } else {
      OwnedKeep(s, id, s'.callers[id]);
    }
  }

  lemma PutOwned(cfg: Config, s: State, id: nat, force: bool)
    requires Owned(s) && id in s.callers && s.callers[id].Borrowed?
    ensures Owned(Step(cfg, s, Put(id, force)))
  {
    hide IdleOwned, CallersOwn;
    var s' := Step(cfg, s, Put(id, force));
    if s.closed || force {
      OwnedKeep(s, id, s'.callers[id]);
    } else {
      OwnedPut(s, id);
      var idle := [s.callers[id].conn] + s.idle;
      if |idle| > cfg.maxIdle {
        assert s'.idle == Without(idle, |idle| - 1);
        var m := s.callers[id := Finished];
        OwnedTake(idle, m, s.dialled, id, |idle| - 1, s'.callers[id]);
        assert m[id := s'.callers[id]] == s'.callers;
      }
    }
  }

  lemma NoIdleOwned(s: State)
    requires Owned(s)
    ensures IdleOwned([], s.dialled) && CallersOwn([], s.callers, s.dialled)
  {
  }

  lemma StepOwned(cfg: Config, s: State, e: Event)
    requires Owned(s) && Enabled(cfg, s, e)
    ensures Owned(Step(cfg, s, e))
  {
    hide IdleOwned, CallersOwn, ChooseNext;
    match e
    case Choose(id, stale) =>
      ChooseOwned(cfg, if At(s, id) == Entered then s else s.(active := s.active - 1), id, stale);
    case Put(id, force) => PutOwned(cfg, s, id, force);
    case Dialled(id, good) =>
      OwnedNew(s, id);
      OwnedKeep(s, id, Finished);
    case ClosePool => NoIdleOwned(s);
    case _ => OwnedKeep(s, e.id, Step(cfg, s, e).callers[e.id]);
  }

  lemma StepInv(cfg: Config, s: State, e: Event)
    requires Inv(cfg, s) && Enabled(cfg, s, e)
    ensures Inv(cfg, Step(cfg, s, e))
  {
    hide Channels, Counts, Owned, Step;
    StepCounts(cfg, s, e);
    StepChannels(cfg, s, e);
    StepOwned(cfg, s, e);
  }

  // ---------- runs ----------

  predicate Runnable(cfg: Config, s: State, es: seq<Event>)
    decreases |es|
  {
    es == [] || (Enabled(cfg, s, es[0]) && Runnable(cfg, Step(cfg, s, es[0]), es[1..]))
  }

  function Run(cfg: Config, s: State, es: seq<Event>): State
    requires Runnable(cfg, s, es)
    decreases |es|
  {
    if es == [] then s else Run(cfg, Step(cfg, s, es[0]), es[1..])
  }

  lemma {:induction false} RunInv(cfg: Config, s: State, es: seq<Event>)
    requires Inv(cfg, s) && Runnable(cfg, s, es)
    ensures Inv(cfg, Run(cfg, s, es))
    decreases |es|
  {
    hide Inv, Step, Enabled;
    if es != [] {
      StepInv(cfg, s, es[0]);
      RunInv(cfg, Step(cfg, s, es[0]), es[1..]);
    }
  }

  // Over every run: no panic and no send that blocks under the mutex; while the pool is open every token is in the
  // channel or with a holder; active counts what is open and respects both limits.
  lemma Safe(cfg: Config, es: seq<Event>)
    requires Runnable(cfg, Initial, es)
    ensures var s := Run(cfg, Initial, es);
      && s.fault == NoFault
      && s.active == |s.idle| + |BusyCallers(s.callers)|
      && |s.idle| <= cfg.maxIdle
      && (cfg.maxActive > 0 ==> s.active <= cfg.maxActive)
      && (s.ch.Open? ==> s.ch.tokens + |Holders(s.callers)| == cfg.maxActive)
  {
    hide Run;
    InitialInv(cfg);
    RunInv(cfg, Initial, es);
  }

  // No connection is handed to two callers, or to a caller while it is still idle.
  lemma Exclusive(cfg: Config, es: seq<Event>, a: nat, b: nat)
    requires Runnable(cfg, Initial, es) && a != b
    requires At(Run(cfg, Initial, es), a).Borrowed? && At(Run(cfg, Initial, es), b).Borrowed?
    ensures At(Run(cfg, Initial, es), a).conn != At(Run(cfg, Initial, es), b).conn
    ensures At(Run(cfg, Initial, es), a).conn !in Run(cfg, Initial, es).idle
  {
    hide Run;
    InitialInv(cfg);
    RunInv(cfg, Initial, es);
    var s := Run(cfg, Initial, es);
    assert Has(s.callers, a) && Has(s.callers, b);
  }

  // Nobody waits for nothing: while the pool is open, a caller is kept waiting only when MaxActive others hold a token.
  lemma WaitsForHolders(cfg: Config, es: seq<Event>, id: nat)
    requires Runnable(cfg, Initial, es)
    requires var s := Run(cfg, Initial, es);
      At(s, id) == Waiting && s.ch.Open? && !Enabled(cfg, s, Receive(id))
    ensures |Holders(Run(cfg, Initial, es).callers)| == cfg.maxActive
  {
    Safe(cfg, es);
  }

  // When the pool is closed and every caller is done, no connection is left open.
  lemma DrainedAfterClose(cfg: Config, es: seq<Event>)
    requires Runnable(cfg, Initial, es) && Run(cfg, Initial, es).closed
    requires forall id :: id in Run(cfg, Initial, es).callers ==> !Run(cfg, Initial, es).callers[id].Busy()
    ensures Run(cfg, Initial, es).active == 0
  {
    hide Run;
    InitialInv(cfg);
    RunInv(cfg, Initial, es);
    assert BusyCallers(Run(cfg, Initial, es).callers) == {};
  }
}
