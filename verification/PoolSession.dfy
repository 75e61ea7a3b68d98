// The pool and its connections together: what the application sends on the connections it borrows, and the state in
// which connections lie in the idle list.
module PoolSessions {
  import opened Basics
  import opened Session
  import P = Pool

  // A connection with its history: what the server had heard before the current use, and the commands of the use.
  // failed is whether the connection reports an error.
  datatype Wire = Wire(link: Link, before: seq<Command>, use: seq<Command>, failed: bool)

  const NewWire := Wire(NewLink, [], [], false)

  datatype State = State(pool: P.State, wires: map<P.Conn, Wire>)

  const Initial := State(P.Initial, map[])

  // A step of the pool, or something a borrower does with its connection.
  datatype Event =
    | InPool(e: P.Event)
    | Send(id: nat, c: Command, spill: bool)
    | Receive(id: nat)
    | Do(id: nat, c: Command)
    | SetBuffer(id: nat, size: nat)
    | UnsetBuffer(id: nat)
    | Break(id: nat)              // an I/O or protocol error

  predicate Enabled(cfg: P.Config, s: State, e: Event)
  {
    match e
    case InPool(p) => P.Enabled(cfg, s.pool, p) && (p.Put? ==> Borrows(s, p.id) && p.force == WireOf(s, p.id).failed)
    case _ => Borrows(s, e.id)
  }

  predicate Borrows(s: State, id: nat)
  {
    P.At(s.pool, id).Borrowed? && s.pool.callers[id].conn in s.wires
  }

  function WireOf(s: State, id: nat): Wire
    requires Borrows(s, id)
  {
    s.wires[s.pool.callers[id].conn]
  }

  // What a borrower does, on its connection.
  function OnWire(u: Wire, e: Event): Wire
    requires !e.InPool?
  {
    match e
    case Send(_, c, spill) => u.(link := AfterSend(u.link, c, spill), use := u.use + [c])
    case Do(_, c) => u.(link := AfterDo(u.link, c), use := u.use + [c])
    case Receive(_) => u.(link := AfterReceive(u.link))
    case SetBuffer(_, size) => u.(link := u.link.(readBuffer := Some(size)))
    case UnsetBuffer(_) => u.(link := u.link.(readBuffer := None))
    case Break(_) => u.(failed := true)
  }

  // activeConn.Close ends the use.
  function EndUse(u: Wire): Wire
  {
    var link := AfterClose(u.link, u.use);
    u.(link := link, before := link.Sent(), use := [])
  }

  function Step(cfg: P.Config, s: State, e: Event): State
    requires Enabled(cfg, s, e)
  {
    match e
    case InPool(p) => State(P.Step(cfg, s.pool, p), NewWires(s, p))
    case _ => s.(wires := s.wires[s.pool.callers[e.id].conn := OnWire(WireOf(s, e.id), e)])
  }

  function NewWires(s: State, p: P.Event): map<P.Conn, Wire>
    requires p.Put? ==> Borrows(s, p.id)
  {
    match p
    case Dialled(_, true) => s.wires[s.pool.dialled := NewWire]
    case Put(id, _) => s.wires[s.pool.callers[id].conn := EndUse(WireOf(s, id))]
    case _ => s.wires
  }

  // ---------- what always holds ----------

  ghost predicate WireOk(u: Wire)
  {
    u.link.Counted() && u.link.Sent() == u.before + u.use
  }

  // Between two uses: nothing buffered, nothing unread, no error.
  ghost predicate Resting(u: Wire)
  {
    u.link.Quiet() && u.use == [] && !u.failed
  }

  // The connection is idle, or taken out of the idle list and not yet given to the application.
  ghost predicate Rests(s: P.State, conn: P.Conn)
  {
    conn in s.idle || exists id :: TestedBy(s, id, conn)
  }

  predicate TestedBy(s: P.State, id: nat, conn: P.Conn)
  {
    P.At(s, id).Testing? && s.callers[id].conn == conn
  }

  ghost predicate Inv(cfg: P.Config, s: State)
  {
    && P.Inv(cfg, s.pool)
    && (forall conn: P.Conn :: conn in s.wires <==> conn < s.pool.dialled)
    && (forall conn :: conn in s.wires ==> WireOk(s.wires[conn]))
    && (forall conn :: conn in s.wires && Rests(s.pool, conn) ==> Resting(s.wires[conn]))
  }

  lemma InitialInv(cfg: P.Config)
    ensures Inv(cfg, Initial)
  {
    P.InitialInv(cfg);
  }

  lemma OnWireOk(u: Wire, e: Event)
    requires WireOk(u) && !e.InPool?
    ensures WireOk(OnWire(u, e)) && OnWire(u, e).before == u.before
  {
    match e
    case Send(_, c, spill) =>
      assert u.link.received + (u.link.out + [c]) == (u.before + u.use) + [c];
      assert (u.before + u.use) + [c] == u.before + (u.use + [c]);
      assert u.link.received + (u.link.out + [c]) + [] == u.link.received + (u.link.out + [c]);
    case Do(_, c) =>
      assert u.link.received + (u.link.out + [c]) == (u.before + u.use) + [c];
      assert (u.before + u.use) + [c] == u.before + (u.use + [c]);
      assert u.link.received + (u.link.out + [c]) + [] == u.link.received + (u.link.out + [c]);
    case _ =>
  }

  lemma EndUseOk(u: Wire)
    requires WireOk(u)
    ensures WireOk(EndUse(u)) && EndUse(u).link.Quiet() && EndUse(u).failed == u.failed
    ensures EndUse(u).link.readBuffer == u.link.readBuffer
    ensures EndUse(u).link.received == u.before + u.use + Cleanup(OnClient(u.use))
  {
    hide AfterClose, Cleanup, OnClient;
    ClosedLink(u.link, u.use);
    var link := EndUse(u).link;
    assert link.received + [] == link.received;
  }

  // Where connections are after a step: only Put adds one to those that rest, and only the borrower's own.
  lemma RestingBefore(cfg: P.Config, s: P.State, p: P.Event, conn: P.Conn)
    requires P.Inv(cfg, s) && P.Enabled(cfg, s, p) && Rests(P.Step(cfg, s, p), conn)
    ensures Rests(s, conn) || (p.Put? && conn == s.callers[p.id].conn && !p.force)
  {
    hide P.Inv;
    var s' := P.Step(cfg, s, p);
    if conn in s'.idle {
      assert conn in s.idle || (p.Put? && conn == s.callers[p.id].conn && !p.force);
    } else {
      var id :| TestedBy(s', id, conn);
      if !p.ClosePool? && id == p.id {
        assert conn in s.idle;
      } else {
        assert TestedBy(s, id, conn);
      }
    }
  }

  // A borrowed connection does not rest, nor is it another borrower's.
  lemma BorrowedApart(cfg: P.Config, s: P.State, id: nat)
    requires P.Inv(cfg, s) && P.At(s, id).Borrowed?
    ensures s.callers[id].conn < s.dialled && !Rests(s, s.callers[id].conn)
    ensures forall other :: other != id && P.At(s, other).Borrowed? ==> s.callers[other].conn != s.callers[id].conn
  {
    var conn := s.callers[id].conn;
    assert P.Has(s.callers, id);
    forall other | other != id && (P.At(s, other).Testing? || P.At(s, other).Borrowed?)
      ensures s.callers[other].conn != conn
    {
      assert P.Has(s.callers, other);
    }
  }

  lemma DialledStep(cfg: P.Config, s: P.State, p: P.Event)
    requires P.Enabled(cfg, s, p)
    ensures P.Step(cfg, s, p).dialled == s.dialled + (if p.Dialled? && p.good then 1 else 0)
  {
  }

  // A new connection rests nowhere.
  lemma NewApart(cfg: P.Config, s: P.State, conn: P.Conn)
    requires P.Inv(cfg, s) && conn >= s.dialled
    ensures !Rests(s, conn)
  {
    forall id | P.At(s, id).Testing?
      ensures s.callers[id].conn < s.dialled
    {
      assert P.Has(s.callers, id);
    }
  }

  lemma CommandInv(cfg: P.Config, s: State, e: Event)
    requires Inv(cfg, s) && Enabled(cfg, s, e) && !e.InPool?
    ensures Inv(cfg, Step(cfg, s, e))
  {
    hide P.Inv, WireOk, OnWire, Rests, Resting;
    BorrowedApart(cfg, s.pool, e.id);
    OnWireOk(WireOf(s, e.id), e);
  }

  lemma PoolStepInv(cfg: P.Config, s: State, e: Event)
    requires Inv(cfg, s) && Enabled(cfg, s, e) && e.InPool?
    ensures Inv(cfg, Step(cfg, s, e))
  {
    hide P.Inv, WireOk, Rests, P.Step, EndUse;
    var s' := Step(cfg, s, e);
    P.StepInv(cfg, s.pool, e.e);
    DialledStep(cfg, s.pool, e.e);
    if e.e.Put? {
      BorrowedApart(cfg, s.pool, e.e.id);
      EndUseOk(WireOf(s, e.e.id));
    }
    NewWireOk();
    forall conn | conn in s'.wires
      ensures WireOk(s'.wires[conn])
    {
    }
    forall conn | conn in s'.wires && Rests(s'.pool, conn)
      ensures Resting(s'.wires[conn])
    {
      RestingBefore(cfg, s.pool, e.e, conn);
      NewApart(cfg, s.pool, s.pool.dialled);
      if e.e.Put? && conn == s.pool.callers[e.e.id].conn {
        assert EndUse(WireOf(s, e.e.id)).use == [] by { UseEnds(WireOf(s, e.e.id)); }
      }
    }
  }

  lemma NewWireOk()
    ensures WireOk(NewWire)
  {
  }

  lemma UseEnds(u: Wire)
    ensures EndUse(u).use == []
  {
  }

  lemma StepInv(cfg: P.Config, s: State, e: Event)
    requires Inv(cfg, s) && Enabled(cfg, s, e)
    ensures Inv(cfg, Step(cfg, s, e))
  {
    hide Inv, Step, Enabled;
    if e.InPool? {
      PoolStepInv(cfg, s, e);
    } else {
      CommandInv(cfg, s, e);
    }
  }

  // ---------- the idle list ----------

  ghost predicate IdlePoolable(s: State)
  {
    forall conn :: conn in s.pool.idle ==> conn in s.wires && s.wires[conn].link.Poolable() && !s.wires[conn].failed
  }

  // The step that puts a connection into the idle list, and not out again at once.
  predicate Lists(cfg: P.Config, s: State, e: Event)
    requires Enabled(cfg, s, e)
  {
    e.InPool? && e.e.Put? && s.pool.callers[e.e.id].conn in P.Step(cfg, s.pool, e.e).idle
  }

  // The use ends with a session that Close can clean, and the read buffer was unset.
  predicate CleanUse(u: Wire) { CleanAfterClose(u.use) && u.link.readBuffer == None }

  predicate EndsClean(cfg: P.Config, s: State, e: Event)
    requires Enabled(cfg, s, e)
  {
    Lists(cfg, s, e) ==> CleanUse(WireOf(s, e.e.id))
  }

  predicate Lent(s: P.State, id: nat) { P.At(s, id).Borrowed? }

  // Resting connections are poolable, and borrowed ones were when they were lent.
  ghost predicate Good(s: State)
  {
    && (forall conn :: conn in s.wires && Rests(s.pool, conn) ==> s.wires[conn].link.Poolable())
    && (forall id :: Lent(s.pool, id) && s.pool.callers[id].conn in s.wires ==>
          OnServer(s.wires[s.pool.callers[id].conn].before) == Clean)
  }

  lemma GoodIdle(cfg: P.Config, s: State)
    requires Inv(cfg, s) && Good(s)
    ensures IdlePoolable(s)
  {
    forall conn | conn in s.pool.idle
      ensures conn in s.wires && s.wires[conn].link.Poolable() && !s.wires[conn].failed
    {
      var i :| 0 <= i < |s.pool.idle| && s.pool.idle[i] == conn;
      assert conn < s.pool.dialled;
      assert Rests(s.pool, conn);
    }
  }

  lemma EndUsePoolable(u: Wire)
    requires WireOk(u) && OnServer(u.before) == Clean
    ensures EndUse(u).link.Poolable() <==> CleanUse(u)
  {
    hide EndUse, OnServer, Cleanup, OnClient;
    EndUseOk(u);
    OnServerAppend(u.before, u.use + Cleanup(OnClient(u.use)));
    assert u.before + (u.use + Cleanup(OnClient(u.use))) == u.before + u.use + Cleanup(OnClient(u.use));
  }

  // Who is lent a connection after a step has it before, or takes it from the resting ones, or has dialled it.
  lemma LentBefore(cfg: P.Config, s: P.State, p: P.Event, id: nat)
    requires P.Enabled(cfg, s, p) && Lent(P.Step(cfg, s, p), id)
    ensures var conn := P.Step(cfg, s, p).callers[id].conn;
      || (Lent(s, id) && conn == s.callers[id].conn && !(p.Put? && p.id == id))
      || TestedBy(s, id, conn)
      || (p.Dialled? && p.good && conn == s.dialled)
  {
  }

  lemma CommandGood(cfg: P.Config, s: State, e: Event)
    requires Inv(cfg, s) && Good(s) && Enabled(cfg, s, e) && !e.InPool?
    ensures Good(Step(cfg, s, e))
  {
    hide P.Inv, WireOk, OnWire, Rests, Resting, OnServer;
    BorrowedApart(cfg, s.pool, e.id);
    OnWireOk(WireOf(s, e.id), e);
  }

  lemma RestingClean(cfg: P.Config, s: State, conn: P.Conn)
    requires Inv(cfg, s) && Good(s) && conn in s.wires && Rests(s.pool, conn)
    ensures OnServer(s.wires[conn].before) == Clean
  {
    hide P.Inv, Rests, OnServer;
    var u := s.wires[conn];
    assert WireOk(u) && Resting(u);
    assert u.link.received + [] == u.link.received && u.before + [] == u.before;
  }

  // After a step of the pool: the borrowed connections were clean when lent.
  lemma LentGood(cfg: P.Config, s: State, e: Event, id: nat)
    requires Inv(cfg, s) && Good(s) && Enabled(cfg, s, e) && e.InPool?
    requires Lent(P.Step(cfg, s.pool, e.e), id)
    ensures var s' := Step(cfg, s, e);
      var conn := s'.pool.callers[id].conn;
      conn in s'.wires ==> OnServer(s'.wires[conn].before) == Clean
  {
    hide P.Inv, P.Step, EndUse, OnServer, WireOk, Resting;
    var s' := Step(cfg, s, e);
    var conn := s'.pool.callers[id].conn;
    LentBefore(cfg, s.pool, e.e, id);
    assert OnServer([]) == Clean by { NothingHeard(); }
    if e.e.Put? {
      BorrowedApart(cfg, s.pool, e.e.id);
    }
    if TestedBy(s.pool, id, conn) {
      assert Rests(s.pool, conn);
      if conn in s.wires {
        RestingClean(cfg, s, conn);
      }
      NewApart(cfg, s.pool, s.pool.dialled);
    } else if Lent(s.pool, id) && conn == s.pool.callers[id].conn {
      BorrowedApart(cfg, s.pool, id);
    }
  }

  lemma NothingHeard()
    ensures OnServer([]) == Clean
  {
  }

  // One step keeps all idle connections poolable if and only if it does not list one after a use that was not clean.
  lemma StepPoolable(cfg: P.Config, s: State, e: Event)
    requires Inv(cfg, s) && Good(s) && Enabled(cfg, s, e)
    ensures EndsClean(cfg, s, e) ==> Good(Step(cfg, s, e))
    ensures !EndsClean(cfg, s, e) ==> !IdlePoolable(Step(cfg, s, e))
  {
    hide P.Inv, P.Step, EndUse, OnServer, WireOk, Resting, CleanUse, Rests;
    if !e.InPool? {
      CommandGood(cfg, s, e);
    } else {
      var s' := Step(cfg, s, e);
      forall id | Lent(s'.pool, id) && s'.pool.callers[id].conn in s'.wires
        ensures OnServer(s'.wires[s'.pool.callers[id].conn].before) == Clean
      {
        LentGood(cfg, s, e, id);
      }
      if e.e.Put? {
        EndUsePoolable(WireOf(s, e.e.id));
        BorrowedApart(cfg, s.pool, e.e.id);
      }
      NewApart(cfg, s.pool, s.pool.dialled);
      forall conn | conn in s'.wires && Rests(s'.pool, conn)
        ensures EndsClean(cfg, s, e) ==> s'.wires[conn].link.Poolable()
      {
        RestingBefore(cfg, s.pool, e.e, conn);
        if !Rests(s.pool, conn) {
          OwnIsListed(cfg, s.pool, e.e, conn);
        }
      }
    }
  }

  // A connection that rests only after its Put is the one just listed.
  lemma OwnIsListed(cfg: P.Config, s: P.State, p: P.Event, conn: P.Conn)
    requires P.Inv(cfg, s) && P.Enabled(cfg, s, p) && p.Put? && conn == s.callers[p.id].conn
    requires Rests(P.Step(cfg, s, p), conn)
    ensures conn in P.Step(cfg, s, p).idle
  {
    BorrowedApart(cfg, s, p.id);
    var s' := P.Step(cfg, s, p);
    if id :| TestedBy(s', id, conn) {
      assert TestedBy(s, id, conn);
    }
  }

  // ---------- runs ----------

  predicate Runnable(cfg: P.Config, s: State, es: seq<Event>)
    decreases |es|
  {
    es == [] || (Enabled(cfg, s, es[0]) && Runnable(cfg, Step(cfg, s, es[0]), es[1..]))
  }

  function Run(cfg: P.Config, s: State, es: seq<Event>): State
    requires Runnable(cfg, s, es)
    decreases |es|
  {
    if es == [] then s else Run(cfg, Step(cfg, s, es[0]), es[1..])
  }

  ghost predicate PoolableThroughout(cfg: P.Config, s: State, es: seq<Event>)
    requires Runnable(cfg, s, es)
    decreases |es|
  {
    IdlePoolable(s) && (es == [] || PoolableThroughout(cfg, Step(cfg, s, es[0]), es[1..]))
  }

  // Every use after which the connection stays in the idle list was clean.
  predicate CleanUses(cfg: P.Config, s: State, es: seq<Event>)
    requires Runnable(cfg, s, es)
    decreases |es|
  {
    es == [] ||
    (EndsClean(cfg, s, es[0]) && CleanUses(cfg, Step(cfg, s, es[0]), es[1..]))
  }

  // The borrower never sends EXEC or DISCARD with keys watched and no transaction begun, and unsets its read buffer.
  predicate Proper(s: State, e: Event)
  {
    match e
    case InPool(p) => p.Put? && Borrows(s, p.id) ==> WireOf(s, p.id).link.readBuffer == None
    case Send(id, c, _) => Borrows(s, id) ==> !Misuse(OnClient(WireOf(s, id).use), c)
    case Do(id, c) => Borrows(s, id) ==> !Misuse(OnClient(WireOf(s, id).use), c)
    case _ => true
  }

  predicate ProperRun(cfg: P.Config, s: State, es: seq<Event>)
    requires Runnable(cfg, s, es)
    decreases |es|
  {
    es == [] || (Proper(s, es[0]) && ProperRun(cfg, Step(cfg, s, es[0]), es[1..]))
  }

  ghost predicate UsesProper(s: State)
  {
    forall conn :: conn in s.wires ==> NoMisuse(s.wires[conn].use)
  }

  lemma {:induction false} RunInv(cfg: P.Config, s: State, es: seq<Event>)
    requires Inv(cfg, s) && Runnable(cfg, s, es)
    ensures Inv(cfg, Run(cfg, s, es))
    decreases |es|
  {
    hide Inv, Step, Enabled;
    if es != [] {
      StepInv(cfg, s, es[0]);
      RunInv(cfg, Step(cfg, s, es[0]), es[1..]);
    }
  }

  lemma {:induction false} PoolableExactly(cfg: P.Config, s: State, es: seq<Event>)
    requires Inv(cfg, s) && Good(s) && Runnable(cfg, s, es)
    ensures PoolableThroughout(cfg, s, es) <==> CleanUses(cfg, s, es)
    decreases |es|
  {
    hide Inv, Good, Step, Enabled, IdlePoolable, EndsClean;
    GoodIdle(cfg, s);
    if es != [] {
      StepInv(cfg, s, es[0]);
      StepPoolable(cfg, s, es[0]);
      if EndsClean(cfg, s, es[0]) {
        PoolableExactly(cfg, Step(cfg, s, es[0]), es[1..]);
      }
    }
  }

  // One more command in a use.
  lemma UseGrows(s: State, e: Event)
    requires UsesProper(s) && !e.InPool? && Borrows(s, e.id) && Proper(s, e)
    ensures NoMisuse(OnWire(WireOf(s, e.id), e).use)
  {
    hide Misuse, OnClient;
    var u := WireOf(s, e.id);
    if e.Send? || e.Do? {
      assert (u.use + [e.c])[..|u.use|] == u.use;
    }
  }

  lemma StepProper(cfg: P.Config, s: State, e: Event)
    requires UsesProper(s) && Enabled(cfg, s, e) && Proper(s, e)
    ensures UsesProper(Step(cfg, s, e))
    ensures EndsClean(cfg, s, e)
  {
    hide P.Step, EndUse, OnWire, NoMisuse, CleanAfterClose, Misuse;
    NoUse();
    if e.InPool? {
      if e.e.Put? {
        var u := WireOf(s, e.e.id);
        UseEnds(u);
        CleanExactly(u.use);
        assert u.use[..|u.use|] == u.use;
      }
    } else {
      UseGrows(s, e);
    }
  }

  lemma NoUse()
    ensures NoMisuse([])
  {
  }

  lemma {:induction false} ProperIsClean(cfg: P.Config, s: State, es: seq<Event>)
    requires UsesProper(s) && Runnable(cfg, s, es) && ProperRun(cfg, s, es)
    ensures CleanUses(cfg, s, es)
    decreases |es|
  {
    hide UsesProper, Step, Enabled, Proper, EndsClean;
    if es != [] {
      StepProper(cfg, s, es[0]);
      ProperIsClean(cfg, Step(cfg, s, es[0]), es[1..]);
    }
  }

  lemma InitialGood(cfg: P.Config)
    ensures Good(Initial) && UsesProper(Initial)
  {
  }

  // Over every run of any number of callers, from a new pool: every connection in the idle list is outside a
  // transaction, watches nothing, has no unread reply and no read buffer, throughout the run, if and only if every
  // use after which a connection stayed there was clean. Nothing has to be asked of the replies: they are always all
  // read.
  lemma IdleExactly(cfg: P.Config, es: seq<Event>)
    requires Runnable(cfg, Initial, es)
    ensures PoolableThroughout(cfg, Initial, es) <==> CleanUses(cfg, Initial, es)
    ensures forall conn :: conn in Run(cfg, Initial, es).pool.idle ==>
      conn in Run(cfg, Initial, es).wires && Resting(Run(cfg, Initial, es).wires[conn])
  {
    hide Run, Runnable, P.Inv, WireOk, Resting;
    InitialInv(cfg);
    InitialGood(cfg);
    PoolableExactly(cfg, Initial, es);
    RunInv(cfg, Initial, es);
    var s := Run(cfg, Initial, es);
    forall conn | conn in s.pool.idle
      ensures conn in s.wires && Resting(s.wires[conn])
    {
      assert Rests(s.pool, conn);
      IdleDialled(cfg, s.pool, conn);
    }
  }

  lemma IdleDialled(cfg: P.Config, s: P.State, conn: P.Conn)
    requires P.Inv(cfg, s) && conn in s.idle
    ensures conn < s.dialled
  {
    var i :| 0 <= i < |s.idle| && s.idle[i] == conn;
  }

  // In particular, over every run of borrowers that never misuse EXEC or DISCARD and unset their read buffers.
  lemma IdleAfterProperUse(cfg: P.Config, es: seq<Event>)
    requires Runnable(cfg, Initial, es) && ProperRun(cfg, Initial, es)
    ensures PoolableThroughout(cfg, Initial, es)
  {
    InitialGood(cfg);
    ProperIsClean(cfg, Initial, es);
    IdleExactly(cfg, es);
  }

  lemma RunCons(cfg: P.Config, s: State, e: Event, es: seq<Event>)
    requires Enabled(cfg, s, e) && Runnable(cfg, Step(cfg, s, e), es)
    ensures Runnable(cfg, s, [e] + es) && Run(cfg, s, [e] + es) == Run(cfg, Step(cfg, s, e), es)
  {
    assert ([e] + es)[1..] == es;
  }

  // A borrower that sends WATCH and EXEC: its connection lies in the idle list with a key watched.
  lemma WatchedWhileIdle() returns (es: seq<Event>)
    ensures var cfg := P.Config(0, 1, false);
      && Runnable(cfg, Initial, es)
      && var s := Run(cfg, Initial, es);
         s.pool.idle == [0] && 0 in s.wires && !s.wires[0].link.Poolable()
  {
    hide OnServer, OnClient, Runnable, Run, CleanAfterClose, AfterClose;
    var cfg := P.Config(0, 1, false);
    var s1 := Step(cfg, Initial, InPool(P.Arrive(0)));
    var s2 := Step(cfg, s1, InPool(P.LazyInit(0)));
    var s3 := Step(cfg, s2, InPool(P.Choose(0, false)));
    var s4 := Step(cfg, s3, InPool(P.Dialled(0, true)));
    var s5 := Step(cfg, s4, Do(0, Watch));
    var s6 := Step(cfg, s5, Do(0, Exec));
    assert s6.wires[0].use == [Watch, Exec] && s6.wires[0].before == [];
    WatchThenExec();
    NothingHeard();
    EndUsePoolable(s6.wires[0]);
    var s7 := Step(cfg, s6, InPool(P.Put(0, false)));
    EmptyRun(cfg, s7);
    RunCons(cfg, s6, InPool(P.Put(0, false)), []);
    es := [InPool(P.Put(0, false))] + [];
    RunCons(cfg, s5, Do(0, Exec), es);
    es := [Do(0, Exec)] + es;
    RunCons(cfg, s4, Do(0, Watch), es);
    es := [Do(0, Watch)] + es;
    RunCons(cfg, s3, InPool(P.Dialled(0, true)), es);
    es := [InPool(P.Dialled(0, true))] + es;
    RunCons(cfg, s2, InPool(P.Choose(0, false)), es);
    es := [InPool(P.Choose(0, false))] + es;
    RunCons(cfg, s1, InPool(P.LazyInit(0)), es);
    es := [InPool(P.LazyInit(0))] + es;
    RunCons(cfg, Initial, InPool(P.Arrive(0)), es);
    es := [InPool(P.Arrive(0))] + es;
  }

  lemma EmptyRun(cfg: P.Config, s: State)
    ensures Runnable(cfg, s, []) && Run(cfg, s, []) == s
  {
  }

  // ---------- the way pdwfs uses its connections ----------

  // Plain commands and MULTI ... EXEC or DISCARD, no WATCH; a read buffer is unset before the connection goes back.
  predicate AsPdwfs(s: State, e: Event)
  {
    match e
    case InPool(p) => p.Put? && Borrows(s, p.id) ==> WireOf(s, p.id).link.readBuffer == None
    case Send(_, c, _) => c != Watch
    case Do(_, c) => c != Watch
    case _ => true
  }

  predicate RunAsPdwfs(cfg: P.Config, s: State, es: seq<Event>)
    requires Runnable(cfg, s, es)
    decreases |es|
  {
    es == [] || (AsPdwfs(s, es[0]) && RunAsPdwfs(cfg, Step(cfg, s, es[0]), es[1..]))
  }

  ghost predicate NothingWatched(s: State)
  {
    forall conn :: conn in s.wires ==> !OnClient(s.wires[conn].use).watch
  }

  lemma StepAsPdwfs(cfg: P.Config, s: State, e: Event)
    requires NothingWatched(s) && Enabled(cfg, s, e) && AsPdwfs(s, e)
    ensures Proper(s, e) && NothingWatched(Step(cfg, s, e))
  {
    hide P.Step, EndUse, OnClient;
    assert !OnClient([]).watch by { AfterNoCommand(); }
    if e.InPool? {
      if e.e.Put? {
        UseEnds(WireOf(s, e.e.id));
      }
    } else if e.Send? || e.Do? {
      OneMoreUnwatched(WireOf(s, e.id).use, e.c);
    }
  }

  lemma AfterNoCommand()
    ensures OnClient([]) == Clean
  {
  }

  lemma OneMoreUnwatched(use: seq<Command>, c: Command)
    requires !OnClient(use).watch && c != Watch
    ensures !OnClient(use + [c]).watch
  {
    AfterSnoc(ClientFlags, Clean, use, c);
  }

  lemma {:induction false} AsPdwfsIsProper(cfg: P.Config, s: State, es: seq<Event>)
    requires NothingWatched(s) && Runnable(cfg, s, es) && RunAsPdwfs(cfg, s, es)
    ensures ProperRun(cfg, s, es)
    decreases |es|
  {
    hide NothingWatched, Step, Enabled, Proper, AsPdwfs;
    if es != [] {
      StepAsPdwfs(cfg, s, es[0]);
      AsPdwfsIsProper(cfg, Step(cfg, s, es[0]), es[1..]);
    }
  }

  // So every idle connection of pdwfs is as good as new, in every run.
  lemma IdleInPdwfs(cfg: P.Config, es: seq<Event>)
    requires Runnable(cfg, Initial, es) && RunAsPdwfs(cfg, Initial, es)
    ensures PoolableThroughout(cfg, Initial, es)
  {
    AsPdwfsIsProper(cfg, Initial, es);
    IdleAfterProperUse(cfg, es);
  }
}
