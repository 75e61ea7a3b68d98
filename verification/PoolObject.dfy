// The pool object: the code between taking and releasing the mutex, each stretch against its step of the state machine.
module PoolObjects {
  import opened Pool
  import opened IdleLists

  function Names(nodes: seq<PoolConn>): (r: seq<Conn>)
    ensures |r| == |nodes| && forall i :: 0 <= i < |r| ==> r[i] == nodes[i].id
  {
    seq(|nodes|, i requires 0 <= i < |nodes| => nodes[i].id)
  }

  predicate StepsTo(cfg: Config, s: State, e: Event, s': State)
  {
    Enabled(cfg, s, e) && s' == Step(cfg, s, e)
  }

  class ConnPool {
    const cfg: Config
    var closed: bool
    var active: int
    var ch: Channel
    const idle: IdleList
    var dialled: nat
    ghost var callers: map<nat, Caller>

    ghost function Abs(): State
      reads this, idle
    {
      State(closed, active, ch, Names(idle.nodes), callers, dialled, NoFault)
    }

    ghost predicate Valid()
      reads this, idle, idle.nodes
    {
      idle.Valid() && Inv(cfg, Abs())
    }

    constructor (cfg: Config)
      ensures Valid() && fresh(this) && fresh(idle) && this.cfg == cfg && Abs() == Initial
    {
      this.cfg, closed, active, ch, dialled, callers := cfg, false, 0, NoChannel, 0, map[];
      idle := new IdleList();
      new;
      InitialInv(cfg);
      assert Abs() == Initial;
    }

    // A send panics on a closed channel and blocks on a full one. Neither can happen where it is called.
    method Send()
      requires ch.Open? && ch.tokens < cfg.maxActive
      modifies this`ch
      ensures ch == Open(old(ch.tokens) + 1)
    {
      ch := Open(ch.tokens + 1);
    }

    method GiveBack()
      requires ReturnToken(cfg, Abs()).fault == NoFault
      modifies this`ch
      ensures Abs() == ReturnToken(cfg, old(Abs()))
    {
      if ch != NoChannel && !closed {
        Send();
      }
    }

    // The limit of waiting pools is set up by the first caller.
    method LazyInit(ghost id: nat)
      requires Valid() && Enabled(cfg, Abs(), Event.LazyInit(id))
      modifies this
      ensures Valid() && idle.nodes == old(idle.nodes)
      ensures StepsTo(cfg, old(Abs()), Event.LazyInit(id), Abs())
    {
      hide Inv, IdleList.Valid, Names, Enabled;
      ghost var s := Abs();
      StepInv(cfg, s, Event.LazyInit(id));
      if cfg.Limited() {
        if ch == NoChannel {
          if closed {
            ch := ClosedChannel;
          } else {
            ch := Open(0);
            for i := 0 to cfg.maxActive
              invariant ch == Open(i)
              invariant closed == s.closed && active == s.active && callers == s.callers && dialled == s.dialled
            {
              Send();
            }
          }
        }
        callers := callers[id := Waiting];
      } else {
        callers := callers[id := Entered];
      }
    }

    // The receive that get waits in.
    method Receive(ghost id: nat)
      requires Valid() && Enabled(cfg, Abs(), Event.Receive(id))
      modifies this
      ensures Valid() && StepsTo(cfg, old(Abs()), Event.Receive(id), Abs())
    {
      hide Inv, IdleList.Valid, Names, Enabled;
      StepInv(cfg, Abs(), Event.Receive(id));
      if ch.Open? {
        ch := Open(ch.tokens - 1);
      }
      callers := callers[id := Entered];
    }

    // ---------- the idle list, by name ----------

    method TakeBack() returns (pc: PoolConn)
      requires idle.Valid() && idle.nodes != []
      modifies idle, idle.nodes
      ensures idle.Valid() && pc in old(idle.nodes) && pc !in idle.nodes
      ensures forall n :: n in idle.nodes ==> n in old(idle.nodes)
      ensures var was := old(Names(idle.nodes));
        Names(idle.nodes) == was[..|was| - 1] && pc.id == was[|was| - 1]
    {
      hide IdleList.Valid;
      pc := idle.Last();
      idle.PopBack();
    }

    method TakeFront() returns (pc: PoolConn)
      requires idle.Valid() && idle.nodes != []
      modifies idle, idle.nodes
      ensures idle.Valid() && pc in old(idle.nodes) && pc !in idle.nodes
      ensures forall n :: n in idle.nodes ==> n in old(idle.nodes)
      ensures Names(idle.nodes) == old(Names(idle.nodes))[1..] && pc.id == old(Names(idle.nodes))[0]
    {
      hide IdleList.Valid;
      pc := idle.First();
      idle.PopFront();
    }

    method AddFront(pc: PoolConn)
      requires idle.Valid() && pc.id !in Names(idle.nodes)
      modifies idle, idle.nodes, pc
      ensures idle.Valid() && idle.nodes == [pc] + old(idle.nodes)
      ensures Names(idle.nodes) == [pc.id] + old(Names(idle.nodes))
    {
      hide IdleList.Valid;
      if pc in idle.nodes {
        Named(idle.nodes, pc);
      }
      idle.PushFront(pc);
    }

    // Empties the list and follows its links.
    method DropAll() returns (dropped: seq<Conn>)
      requires idle.Valid()
      modifies idle
      ensures idle.Valid() && idle.nodes == [] && dropped == old(Names(idle.nodes))
    {
      var pc := idle.front;
      ghost var nodes := idle.nodes;
      idle.count, idle.front, idle.back, idle.nodes := 0, null, null, [];
      dropped := FollowLinks(pc, nodes);
    }

    static method FollowLinks(front: PoolConn?, ghost nodes: seq<PoolConn>) returns (names: seq<Conn>)
      requires front == NodeAt(nodes, 0)
      requires forall i :: 0 <= i < |nodes| ==> nodes[i].next == NodeAt(nodes, i + 1)
      ensures names == Names(nodes)
    {
      var pc := front;
      names := [];
      ghost var i := 0;
      ghost var all := Names(nodes);
      hide Names;
      while pc != null
        invariant 0 <= i <= |nodes| && pc == NodeAt(nodes, i)
        invariant names == all[..i]
        decreases |nodes| - i
      {
        assert all[..i + 1] == all[..i] + [all[i]];
        names := names + [pc.id];
        pc := pc.next;
        i := i + 1;
      }
    }

    method IdleCount() returns (n: nat)
      requires idle.Valid()
      ensures n == |Names(idle.nodes)|
    {
      n := idle.count;
    }

    // The stale connection at the back, or else the one in front.
    method TakeIdle(stale: bool) returns (pc: PoolConn?)
      requires idle.Valid()
      modifies idle, idle.nodes
      ensures idle.Valid() && (pc == null <==> old(Names(idle.nodes)) == [])
      ensures pc == null ==> idle.nodes == [] && Names(idle.nodes) == [] && old(Names(idle.nodes)) == []
      ensures pc != null ==>
        var was := old(Names(idle.nodes));
        && pc in old(idle.nodes) && pc !in idle.nodes
        && pc.id == (if stale then was[|was| - 1] else was[0])
        && Names(idle.nodes) == (if stale then was[..|was| - 1] else was[1..])
    {
      hide IdleList.Valid;
      pc := null;
      var count := IdleCount();
      if stale && count != 0 {
        pc := TakeBack();
      } else if count != 0 {
        pc := TakeFront();
      }
    }

    // The connection goes to the front, and the one at the back is taken out if there are too many.
    method KeepIdle(pc: PoolConn) returns (evicted: PoolConn?)
      requires idle.Valid() && pc.id !in Names(idle.nodes)
      modifies idle, idle.nodes, pc
      ensures idle.Valid()
      ensures var names := [pc.id] + old(Names(idle.nodes));
        if |names| > cfg.maxIdle
        then evicted != null && evicted !in idle.nodes && evicted.id == names[|names| - 1] &&
             Names(idle.nodes) == names[..|names| - 1]
        else evicted == null && Names(idle.nodes) == names
    {
      hide IdleList.Valid;
      AddFront(pc);
      var count := IdleCount();
      evicted := null;
      if count > cfg.maxIdle {
        evicted := TakeBack();
      }
    }

    // ---------- get and put ----------

    // From taking the mutex in get, for the first time or again after closing a connection, to releasing it.
    method Choose(ghost id: nat, again: bool, stale: bool) returns (pc: PoolConn?)
      requires Valid() && Enabled(cfg, Abs(), Event.Choose(id, stale)) && again == (At(Abs(), id) != Entered)
      modifies this, idle, idle.nodes
      ensures Valid() && StepsTo(cfg, old(Abs()), Event.Choose(id, stale), Abs())
      ensures pc != null <==> At(Abs(), id).HasConn()
      ensures pc != null ==> pc in old(idle.nodes) && pc !in idle.nodes
      ensures pc != null ==> At(Abs(), id) in {Pruning(pc.id), Testing(pc.id)}
    {
      hide Inv, IdleList.Valid, Names, Enabled, Step;
      ghost var s := Abs();
      StepInv(cfg, s, Event.Choose(id, stale));
      ChooseIs(cfg, s, id, stale);
      pc := null;
      if again {
        active := active - 1;
      }
      pc := TakeIdle(stale);
      if pc != null {
        callers := callers[id := if stale then Pruning(pc.id) else Testing(pc.id)];
      } else if closed || (!cfg.wait && cfg.maxActive > 0 && active >= cfg.maxActive) {
        callers := callers[id := Finished];
      } else {
        active := active + 1;
        callers := callers[id := Dialing];
      }
    }

    // What follows the dial: a new connection, or back under the mutex to give up the place.
    method Dialled(ghost id: nat, good: bool) returns (pc: PoolConn?)
      requires Valid() && Enabled(cfg, Abs(), Event.Dialled(id, good))
      modifies this
      ensures Valid() && StepsTo(cfg, old(Abs()), Event.Dialled(id, good), Abs())
      ensures pc != null <==> good
      ensures pc != null ==> fresh(pc) && At(Abs(), id) == Borrowed(pc.id)
    {
      hide Inv, IdleList.Valid, Names, Enabled;
      StepInv(cfg, Abs(), Event.Dialled(id, good));
      NoFaultAfter(cfg, Abs(), Event.Dialled(id, good));
      pc := null;
      if good {
        pc := new PoolConn(dialled);
        callers := callers[id := Borrowed(dialled)];
        dialled := dialled + 1;
      } else {
        active := active - 1;
        callers := callers[id := Finished];
        GiveBack();
      }
    }

    // put up to the point where it releases the mutex: for good, or to close a connection.
    method Put(ghost id: nat, pc: PoolConn, force: bool) returns (evicted: PoolConn?)
      requires Valid() && At(Abs(), id) == Borrowed(pc.id)
      modifies this, idle, idle.nodes, pc
      ensures Valid() && StepsTo(cfg, old(Abs()), Event.Put(id, force), Abs())
      ensures evicted != null <==> At(Abs(), id).Evicting?
      ensures evicted != null ==> evicted !in idle.nodes && At(Abs(), id) == Evicting(evicted.id)
    {
      hide Inv, IdleList.Valid, Names;
      ghost var s := Abs();
      StepInv(cfg, s, Event.Put(id, force));
      NoFaultAfter(cfg, s, Event.Put(id, force));
      NotIdle(cfg, s, id);
      evicted := pc;
      if !closed && !force {
        evicted := KeepIdle(pc);
      }
      assert Names(idle.nodes) == Step(cfg, s, Event.Put(id, force)).idle;
      if evicted != null {
        callers := callers[id := Evicting(evicted.id)];
      } else {
        callers := callers[id := Finished];
        GiveBack();
      }
    }

    // put again, after closing a connection.
    method PutEnd(ghost id: nat)
      requires Valid() && Enabled(cfg, Abs(), Event.PutEnd(id))
      modifies this
      ensures Valid() && StepsTo(cfg, old(Abs()), Event.PutEnd(id), Abs())
    {
      hide Inv, IdleList.Valid, Names, Enabled;
      StepInv(cfg, Abs(), Event.PutEnd(id));
      NoFaultAfter(cfg, Abs(), Event.PutEnd(id));
      active := active - 1;
      callers := callers[id := Finished];
      GiveBack();
    }

    // Close closes each idle connection once; the channel is closed under the mutex, the connections after it.
    method Close() returns (dropped: seq<Conn>)
      requires Valid()
      modifies this, idle
      ensures Valid() && StepsTo(cfg, old(Abs()), ClosePool, Abs())
      ensures dropped == if old(closed) then [] else old(Abs()).idle
    {
      hide Inv, IdleList.Valid, Names;
      StepInv(cfg, Abs(), ClosePool);
      NoFaultAfter(cfg, Abs(), ClosePool);
      dropped := [];
      if closed {
        return;
      }
      closed := true;
      var count := IdleCount();
      active := active - count;
      if ch != NoChannel {
        ch := ClosedChannel;
      }
      dropped := DropAll();
    }
  }

  lemma Named(nodes: seq<PoolConn>, pc: PoolConn)
    requires pc in nodes
    ensures pc.id in Names(nodes)
  {
    var i :| 0 <= i < |nodes| && nodes[i] == pc;
    assert Names(nodes)[i] == pc.id;
  }

  // What Choose makes of every part of the state.
  lemma ChooseIs(cfg: Config, s: State, id: nat, stale: bool)
    requires Enabled(cfg, s, Event.Choose(id, stale)) && s.fault == NoFault
    ensures var active := if At(s, id) == Entered then s.active else s.active - 1;
      var n := |s.idle|;
      Step(cfg, s, Event.Choose(id, stale)) ==
        if n > 0 && stale then
          State(s.closed, active, s.ch, s.idle[..n - 1], s.callers[id := Pruning(s.idle[n - 1])], s.dialled, NoFault)
        else if n > 0 then
          State(s.closed, active, s.ch, s.idle[1..], s.callers[id := Testing(s.idle[0])], s.dialled, NoFault)
        else if s.closed || (!cfg.wait && cfg.maxActive > 0 && active >= cfg.maxActive) then
          State(s.closed, active, s.ch, [], s.callers[id := Finished], s.dialled, NoFault)
        else State(s.closed, active + 1, s.ch, [], s.callers[id := Dialing], s.dialled, NoFault)
  {
    hide Enabled;
  }

  lemma NoFaultAfter(cfg: Config, s: State, e: Event)
    requires Inv(cfg, s) && Enabled(cfg, s, e)
    ensures Step(cfg, s, e).fault == NoFault
  {
    hide Step;
    StepChannels(cfg, s, e);
  }

  // A borrowed connection is not in the idle list.
  lemma NotIdle(cfg: Config, s: State, id: nat)
    requires Inv(cfg, s) && At(s, id).Borrowed?
    ensures s.callers[id].conn !in s.idle
  {
    assert Has(s.callers, id);
  }
}
