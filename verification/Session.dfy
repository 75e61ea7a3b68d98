// Command pipelining on one connection, and the state a pooled connection is returned in.
module Session {
  import opened Basics
  import opened Resp

  // The commands that change what a connection is in the middle of, and all others.
  datatype Command = Multi | Exec | Discard | Watch | Unwatch | Plain(args: seq<Bytes>)

  datatype Flags = Flags(multi: bool, watch: bool)

  const Clean := Flags(false, false)

  // The session state that Redis keeps. EXEC and DISCARD outside a transaction are errors, as is WATCH inside one, and
  // UNWATCH inside one is only queued: none of these changes anything by itself.
  function ServerFlags(f: Flags, c: Command): Flags
  {
    match c
    case Multi => Flags(true, f.watch)
    case Exec => if f.multi then Clean else f
    case Discard => if f.multi then Clean else f
    case Watch => if f.multi then f else Flags(false, true)
    case Unwatch => if f.multi then f else Flags(false, false)
    case Plain(_) => f
  }

  // The state bits the pool's wrapper keeps, from the table of command effects.
  function ClientFlags(f: Flags, c: Command): Flags
  {
    match c
    case Multi => Flags(true, f.watch)
    case Exec => Clean
    case Discard => Clean
    case Watch => Flags(f.multi, true)
    case Unwatch => Flags(f.multi, false)
    case Plain(_) => f
  }

  function AfterAll(step: (Flags, Command) -> Flags, f: Flags, cs: seq<Command>): Flags
  {
    if cs == [] then f else step(AfterAll(step, f, cs[..|cs| - 1]), cs[|cs| - 1])
  }

  function OnServer(cs: seq<Command>): Flags { AfterAll(ServerFlags, Clean, cs) }

  function OnClient(cs: seq<Command>): Flags { AfterAll(ClientFlags, Clean, cs) }

  // What activeConn.Close sends first.
  function Cleanup(client: Flags): seq<Command>
  {
    if client.multi then [Discard] else if client.watch then [Unwatch] else []
  }

  // Closing after these commands leaves the server session as a new connection would have it.
  predicate CleanAfterClose(cs: seq<Command>)
  {
    OnServer(cs + Cleanup(OnClient(cs))) == Clean
  }

  // The one misuse: EXEC or DISCARD with keys watched but no transaction begun.
  predicate Misuse(client: Flags, c: Command)
  {
    (c == Exec || c == Discard) && client.watch && !client.multi
  }

  predicate NoMisuse(cs: seq<Command>)
  {
    cs == [] || (NoMisuse(cs[..|cs| - 1]) && !Misuse(OnClient(cs[..|cs| - 1]), cs[|cs| - 1]))
  }

  predicate InStep(server: Flags, client: Flags)
  {
    server.multi == client.multi && (!client.multi ==> server.watch == client.watch)
  }

  lemma AfterSnoc(step: (Flags, Command) -> Flags, f: Flags, cs: seq<Command>, c: Command)
    ensures AfterAll(step, f, cs + [c]) == step(AfterAll(step, f, cs), c)
  {
    assert (cs + [c])[..|cs + [c]| - 1] == cs;
  }

  lemma {:induction false} StaysInStep(cs: seq<Command>)
    requires NoMisuse(cs)
    ensures InStep(OnServer(cs), OnClient(cs))
    decreases |cs|
  {
    if cs != [] {
      StaysInStep(cs[..|cs| - 1]);
    }
  }

  lemma CleanIffInStep(cs: seq<Command>)
    requires OnServer(cs).multi == OnClient(cs).multi
    ensures CleanAfterClose(cs) <==> InStep(OnServer(cs), OnClient(cs)) || (OnClient(cs).watch && !OnClient(cs).multi)
  {
    var cleanup := Cleanup(OnClient(cs));
    if cleanup == [] {
      assert cs + cleanup == cs;
    } else {
      AfterSnoc(ServerFlags, Clean, cs, cleanup[0]);
      assert cleanup == [cleanup[0]];
    }
  }

  lemma {:induction false} MultiAgrees(cs: seq<Command>)
    ensures OnServer(cs).multi == OnClient(cs).multi
    decreases |cs|
  {
    if cs != [] {
      MultiAgrees(cs[..|cs| - 1]);
    }
  }

  lemma {:induction false} MisuseShows(cs: seq<Command>)
    requires !NoMisuse(cs)
    ensures exists k :: 0 <= k <= |cs| && !CleanAfterClose(cs[..k])
    decreases |cs|
  {
    var init := cs[..|cs| - 1];
    if NoMisuse(init) {
      StaysInStep(init);
      MultiAgrees(cs);
      CleanIffInStep(cs);
      assert cs[..|cs|] == cs;
    } else {
      MisuseShows(init);
      var k :| 0 <= k <= |init| && !CleanAfterClose(init[..k]);
      assert init[..k] == cs[..k];
    }
  }

  lemma {:induction false} NoMisusePrefix(cs: seq<Command>, k: nat)
    requires NoMisuse(cs) && k <= |cs|
    ensures NoMisuse(cs[..k])
    decreases |cs|
  {
    if k == |cs| {
      assert cs[..k] == cs;
    } else {
      NoMisusePrefix(cs[..|cs| - 1], k);
      assert cs[..|cs| - 1][..k] == cs[..k];
    }
  }

  // A connection can be given back clean at every moment of a use if and only if the use never sends EXEC or DISCARD
  // with keys watched and no transaction begun.
  lemma CleanExactly(cs: seq<Command>)
    ensures (forall k :: 0 <= k <= |cs| ==> CleanAfterClose(cs[..k])) <==> NoMisuse(cs)
  {
    if NoMisuse(cs) {
      forall k | 0 <= k <= |cs|
        ensures CleanAfterClose(cs[..k])
      {
        NoMisusePrefix(cs, k);
        StaysInStep(cs[..k]);
        CleanIffInStep(cs[..k]);
      }
    } else {
      MisuseShows(cs);
    }
  }

  lemma WatchThenExec()
    ensures !CleanAfterClose([Watch, Exec])
  {
    var cs := [Watch, Exec];
    assert cs[..1] == [Watch] && [Watch][..0] == [];
    assert OnClient([Watch]) == Flags(false, true) && OnServer([Watch]) == Flags(false, true);
    assert OnClient(cs) == Clean && OnServer(cs) == Flags(false, true);
    assert cs + [] == cs;
  }

  lemma {:induction false} AfterAppend(step: (Flags, Command) -> Flags, f: Flags, a: seq<Command>, b: seq<Command>)
    ensures AfterAll(step, f, a + b) == AfterAll(step, AfterAll(step, f, a), b)
    decreases |b|
  {
    if b == [] {
      assert a + b == a;
    } else {
      assert (a + b)[..|a + b| - 1] == a + b[..|b| - 1];
      AfterAppend(step, f, a, b[..|b| - 1]);
    }
  }

  // ---------- the connection, as a value ----------

  // What counts about a connection besides the replies themselves: what the server has received, what is buffered, how
  // many replies are unread, how many the client expects, and the caller's read buffer.
  datatype Link = Link(received: seq<Command>, out: seq<Command>, unread: nat, pending: int, readBuffer: Option<nat>)
  {
    function Sent(): seq<Command> { received + out }

    predicate Counted() { pending == unread + |out| }

    predicate Quiet() { pending == 0 && out == [] && unread == 0 }

    // As an idle connection must be: nothing unread, no read buffer, no transaction, no watched keys.
    predicate Poolable() { Quiet() && readBuffer == None && OnServer(received) == Clean }
  }

  const NewLink := Link([], [], 0, 0, None)

  function AfterFlush(l: Link): Link { l.(received := l.Sent(), out := [], unread := l.unread + |l.out|) }

  function AfterSend(l: Link, c: Command, spill: bool): Link
  {
    var sent := l.(pending := l.pending + 1, out := l.out + [c]);
    if spill then AfterFlush(sent) else sent
  }

  function AfterReceive(l: Link): Link
  {
    if l.unread == 0 then l
    else l.(unread := l.unread - 1, pending := if l.pending > 0 then l.pending - 1 else l.pending)
  }

  function AfterDo(l: Link, c: Command): Link
  {
    AfterFlush(l.(out := l.out + [c])).(unread := 0, pending := 0)
  }

  function AfterDrain(l: Link): Link
  {
    if l.pending == 0 then l else AfterFlush(l).(unread := 0, pending := 0)
  }

  // activeConn.Close: the cleanup command, and then everything read.
  function AfterClose(l: Link, use: seq<Command>): Link
  {
    var cleanup := Cleanup(OnClient(use));
    AfterDrain(if cleanup == [] then l else AfterSend(l, cleanup[0], false))
  }

  lemma ClosedLink(l: Link, use: seq<Command>)
    requires l.Counted()
    ensures var l' := AfterClose(l, use);
      l'.Quiet() && l'.received == l.Sent() + Cleanup(OnClient(use)) && l'.readBuffer == l.readBuffer
  {
    var cleanup := Cleanup(OnClient(use));
    if cleanup == [] {
      assert l.pending == 0 ==> l.received == l.Sent();
      assert l.Sent() + cleanup == l.Sent();
    } else {
      assert cleanup == [cleanup[0]];
      assert l.received + (l.out + [cleanup[0]]) == l.Sent() + cleanup;
    }
  }

  // ---------- replies ----------

  // The answers to the last n of these commands, in order.
  function AnswersTo(answer: seq<Command> -> Reply, cs: seq<Command>, n: nat): (r: seq<Reply>)
    requires n <= |cs|
    ensures |r| == n
  {
    seq(n, k requires 0 <= k < n => answer(cs[..|cs| - n + k + 1]))
  }

  lemma AnswersSnoc(answer: seq<Command> -> Reply, cs: seq<Command>, n: nat, c: Command)
    requires n <= |cs|
    ensures AnswersTo(answer, cs + [c], n + 1) == AnswersTo(answer, cs, n) + [answer(cs + [c])]
  {
    var more := cs + [c];
    assert more[..|more|] == more;
    var longer, shorter := AnswersTo(answer, more, n + 1), AnswersTo(answer, cs, n);
    forall k | 0 <= k < n
      ensures longer[k] == shorter[k]
    {
      assert more[..|cs| - n + k + 1] == cs[..|cs| - n + k + 1];
    }
  }

  lemma LastAnswer(answer: seq<Command> -> Reply, cs: seq<Command>, n: nat)
    requires 0 < n <= |cs|
    ensures AnswersTo(answer, cs, n)[n - 1] == answer(cs)
  {
    assert cs[..|cs|] == cs;
  }

  lemma AnswersTail(answer: seq<Command> -> Reply, cs: seq<Command>, n: nat, k: nat)
    requires k <= n <= |cs|
    ensures AnswersTo(answer, cs, n)[k..] == AnswersTo(answer, cs, n - k)
  {
  }

  // The first error reply of all, if there is one.
  function FirstError(replies: seq<Reply>): (e: Option<Reply>)
    ensures e.Some? <==> exists k :: 0 <= k < |replies| && replies[k].ErrorReply?
    ensures e.Some? ==> exists k :: 0 <= k < |replies| && e.value == replies[k] && replies[k].ErrorReply? &&
                          forall j :: 0 <= j < k ==> !replies[j].ErrorReply?
  {
    if replies == [] then None
    else
      var init, last := replies[..|replies| - 1], replies[|replies| - 1];
      var e := FirstError(init);
      assert forall k :: 0 <= k < |init| ==> init[k] == replies[k];
      if e.Some? then e else if last.ErrorReply? then Some(last) else None
  }

  lemma FirstErrorSnoc(replies: seq<Reply>, r: Reply)
    ensures FirstError(replies + [r]) ==
      if FirstError(replies).Some? then FirstError(replies) else if r.ErrorReply? then Some(r) else None
  {
    assert (replies + [r])[..|replies|] == replies;
  }

  // ---------- the connection ----------

  class Conn {
    // The server's answer to the last command of everything it has received on this connection.
    const answer: seq<Command> -> Reply
    var pending: int            // replies expected, as the client counts them
    var out: seq<Command>       // written to the buffer, not yet flushed
    var stream: seq<Reply>      // sent by the server, not yet read
    var readBuffer: Option<nat>
    var received: seq<Command>  // all commands the server has received

    ghost function State(): Link
      reads this
    {
      Link(received, out, |stream|, pending, readBuffer)
    }

    // The unread replies answer the last commands received, in order.
    ghost predicate InOrder()
      reads this
    {
      |stream| <= |received| && stream == AnswersTo(answer, received, |stream|)
    }

    ghost predicate Valid()
      reads this
    {
      InOrder() && State().Counted()
    }

    // Everything sent on this connection so far.
    ghost function Sent(): seq<Command>
      reads this
    {
      received + out
    }

    ghost predicate Poolable()
      reads this
    {
      Valid() && State().Poolable()
    }

    constructor (answer: seq<Command> -> Reply)
      ensures Poolable() && State() == NewLink && this.answer == answer
    {
      this.answer := answer;
      pending, out, stream, readBuffer, received := 0, [], [], None, [];
    }

    // The server receives the buffered commands and answers them in order.
    method Flush()
      requires InOrder()
      modifies this
      ensures InOrder() && State() == AfterFlush(old(State()))
    {
      ghost var l := State();
      while out != []
        invariant InOrder() && AfterFlush(State()) == AfterFlush(l)
        decreases |out|
      {
        var c := out[0];
        assert received + out == (received + [c]) + out[1..];
        AnswersSnoc(answer, received, |stream|, c);
        received := received + [c];
        stream := stream + [answer(received)];
        out := out[1..];
      }
      assert received + [] == received;
    }

    // spill: the write buffer happened to be full and was flushed.
    method Send(c: Command, spill: bool)
      requires Valid()
      modifies this
      ensures Valid() && State() == AfterSend(old(State()), c, spill)
      ensures Sent() == old(Sent()) + [c]
    {
      pending := pending + 1;
      out := out + [c];
      assert received + out == (received + old(out)) + [c];
      if spill {
        Flush();
        assert received + out == received;
      }
    }

    // readReply: takes the next reply off the wire.
    method ReadReply() returns (r: Reply)
      requires InOrder() && stream != []
      modifies this`stream
      ensures InOrder() && stream == old(stream)[1..] && r == old(stream)[0]
    {
      AnswersTail(answer, received, |stream|, 1);
      r := stream[0];
      stream := stream[1..];
    }

    // The reply to the oldest command that has none yet. None stands for a call that waits: no reply is under way.
    method Receive() returns (r: Option<Reply>)
      requires Valid()
      modifies this
      ensures Valid() && State() == AfterReceive(old(State())) && Sent() == old(Sent())
      ensures r == if old(stream) == [] then None else Some(answer(received[..|received| - old(|stream|) + 1]))
      ensures stream == if old(stream) == [] then [] else old(stream)[1..]
    {
      if stream == [] {
        return None;
      }
      var reply := ReadReply();
      if pending > 0 {
        pending := pending - 1;
      }
      r := Some(reply);
    }

    // The loop of Do over the replies: all of them are read, the last one and the first error are kept.
    method ReadReplies(n: nat) returns (reply: Reply, error: Option<Reply>)
      requires InOrder() && 0 < n == |stream|
      modifies this`stream
      ensures InOrder() && stream == []
      ensures reply == old(stream)[n - 1] && error == FirstError(old(stream))
    {
      hide FirstError;
      ghost var replies := stream;
      error := None;
      reply := Nil;
      NoError();
      assert replies[0..] == replies && replies[..0] == [];
      for i := 0 to n
        invariant InOrder() && stream == replies[i..]
        invariant i > 0 ==> reply == replies[i - 1]
        invariant error == FirstError(replies[..i])
      {
        FirstErrorSnoc(replies[..i], replies[i]);
        assert replies[..i + 1] == replies[..i] + [replies[i]];
        reply := ReadReply();
        if reply.ErrorReply? && error == None {
          error := Some(reply);
        }
      }
      assert replies[..n] == replies;
    }

    // Sends the command, reads all outstanding replies and then its own. error is the first error reply of them all.
    method Do(c: Command) returns (reply: Reply, error: Option<Reply>)
      requires Valid()
      modifies this
      ensures Valid() && State() == AfterDo(old(State()), c)
      ensures received == old(Sent()) + [c] && old(pending) + 1 <= |received|
      ensures reply == answer(received)
      ensures error == FirstError(AnswersTo(answer, received, old(pending) + 1))
    {
      hide FirstError, OnServer, AnswersTo;
      var n := pending;
      pending := 0;
      out := out + [c];
      assert received + out == (received + old(out)) + [c];
      Flush();
      LastAnswer(answer, received, n + 1);
      reply, error := ReadReplies(n + 1);
    }

    // Do(""): flushes and drains, and returns the drained replies.
    method Drain() returns (replies: seq<Reply>)
      requires Valid()
      modifies this
      ensures Valid() && State() == AfterDrain(old(State()))
      ensures received == old(Sent()) && old(pending) <= |received|
      ensures replies == AnswersTo(answer, received, old(pending))
    {
      hide OnServer;
      var n := pending;
      pending := 0;
      if n == 0 {
        assert received + [] == received;
        return [];
      }
      Flush();
      ghost var all := stream;
      assert all[0..] == all && all[..0] == [];
      replies := [];
      while |replies| < n
        invariant |replies| <= n && InOrder() && stream == all[|replies|..] && replies == all[..|replies|]
        invariant AfterFlush(old(State())).(unread := |stream|, pending := 0) == State()
      {
        var r := ReadReply();
        replies := replies + [r];
      }
      assert all[..n] == all;
    }

    method SetReadBuffer(size: nat)
      requires Valid()
      modifies this`readBuffer
      ensures Valid() && State() == old(State()).(readBuffer := Some(size))
    {
      readBuffer := Some(size);
    }

    method UnsetReadBuffer()
      requires Valid()
      modifies this`readBuffer
      ensures Valid() && State() == old(State()).(readBuffer := None)
    {
      readBuffer := None;
    }
  }

  lemma NoError()
    ensures FirstError([]) == None
  {
  }

  // ---------- the pool's wrapper ----------

  // One use of a pooled connection, from Get to Close. use holds the commands sent in this use.
  class ActiveConn {
    const pc: Conn
    var state: Flags
    ghost var before: seq<Command>
    ghost var use: seq<Command>

    ghost predicate Valid()
      reads this, pc
    {
      pc.Valid() && pc.Sent() == before + use && state == OnClient(use)
    }

    constructor (pc: Conn)
      requires pc.Valid() && pc.State().Quiet()
      ensures Valid() && this.pc == pc && use == [] && before == pc.received
    {
      this.pc, state, before, use := pc, Clean, pc.received, [];
      new;
      assert pc.received + [] == pc.received;
    }

    method Send(c: Command, spill: bool)
      requires Valid()
      modifies this, pc
      ensures Valid() && before == old(before) && use == old(use) + [c]
      ensures pc.State() == AfterSend(old(pc.State()), c, spill)
    {
      AfterSnoc(ClientFlags, Clean, use, c);
      assert before + (use + [c]) == (before + use) + [c];
      state := ClientFlags(state, c);
      use := use + [c];
      pc.Send(c, spill);
    }

    method Do(c: Command) returns (reply: Reply, error: Option<Reply>)
      requires Valid()
      modifies this, pc
      ensures Valid() && before == old(before) && use == old(use) + [c]
      ensures pc.State() == AfterDo(old(pc.State()), c) && old(pc.pending) + 1 <= |before + use|
      ensures reply == pc.answer(before + use)
      ensures error == FirstError(AnswersTo(pc.answer, before + use, old(pc.pending) + 1))
    {
      hide FirstError, AnswersTo;
      AfterSnoc(ClientFlags, Clean, use, c);
      assert before + (use + [c]) == (before + use) + [c];
      state := ClientFlags(state, c);
      use := use + [c];
      reply, error := pc.Do(c);
      assert pc.received + [] == pc.received;
    }

    // failed is whether the connection reports an error by then: only that forces the connection to be closed.
    // Otherwise it is left as AfterClose says: with every reply read, and with a clean session after a use that ends
    // clean.
    method Close(failed: bool) returns (forceClose: bool)
      requires Valid()
      modifies this, pc
      ensures forceClose == failed
      ensures pc.Valid() && pc.State() == AfterClose(old(pc.State()), old(use)) && pc.State().Quiet()
      ensures pc.received == old(before + use + Cleanup(OnClient(use)))
      ensures old(OnServer(before) == Clean && pc.readBuffer == None) ==>
        (pc.Poolable() <==> old(CleanAfterClose(use)))
    {
      hide OnServer, OnClient;
      ClosedLink(pc.State(), use);
      OnServerAppend(before, use + Cleanup(OnClient(use)));
      assert before + (use + Cleanup(OnClient(use))) == before + use + Cleanup(OnClient(use));
      if state.multi {
        pc.Send(Discard, false);
        state := Clean;
      } else if state.watch {
        pc.Send(Unwatch, false);
        state := Flags(state.multi, false);
      }
      var drained := pc.Drain();
      forceClose := state.multi || state.watch || failed;
    }
  }

  lemma OnServerAppend(before: seq<Command>, use: seq<Command>)
    ensures OnServer(before) == Clean ==> OnServer(before + use) == OnServer(use)
  {
    AfterAppend(ServerFlags, Clean, before, use);
  }

  // ---------- how pdwfs uses connections ----------

  // Pipeline ... Flush: MULTI, the commands, EXEC.
  method Pipeline(pc: Conn, commands: seq<Command>) returns (reply: Reply)
    requires pc.Poolable() && forall i :: 0 <= i < |commands| ==> commands[i].Plain?
    modifies pc
    ensures pc.Poolable()
    ensures pc.received == old(pc.received) + ([Multi] + commands + [Exec])
    ensures reply == pc.answer(pc.received)
  {
    hide OnServer, OnClient, FirstError;
    var conn := new ActiveConn(pc);
    conn.Send(Multi, false);
    for i := 0 to |commands|
      invariant conn.Valid() && fresh(conn) && conn.pc == pc && conn.before == old(pc.received)
      invariant conn.use == [Multi] + commands[..i] && pc.readBuffer == None
    {
      conn.Send(commands[i], false);
      assert [Multi] + commands[..i] + [commands[i]] == [Multi] + commands[..i + 1];
    }
    assert commands[..|commands|] == commands;
    var error: Option<Reply>;
    reply, error := conn.Do(Exec);
    PipelineFlags(commands);
    ghost var use := [Multi] + commands + [Exec];
    assert conn.use == use && use + [] == use && Cleanup(Clean) == [];
    assert conn.before + use + [] == conn.before + use;
    var forced := conn.Close(false);
  }

  lemma {:induction false} PipelineFlags(commands: seq<Command>)
    requires forall i :: 0 <= i < |commands| ==> commands[i].Plain?
    ensures OnClient([Multi] + commands) == OnServer([Multi] + commands) == Flags(true, false)
    ensures OnClient([Multi] + commands + [Exec]) == OnServer([Multi] + commands + [Exec]) == Clean
    ensures NoMisuse([Multi] + commands + [Exec]) && NoMisuse([Multi] + commands)
    decreases |commands|
  {
    if commands == [] {
      AfterSnoc(ClientFlags, Clean, [], Multi);
      AfterSnoc(ServerFlags, Clean, [], Multi);
      assert [Multi] + commands == [] + [Multi];
      assert ([] + [Multi])[..0] == [];
    } else {
      var init, last := commands[..|commands| - 1], commands[|commands| - 1];
      PipelineFlags(init);
      AfterSnoc(ClientFlags, Clean, [Multi] + init, last);
      AfterSnoc(ServerFlags, Clean, [Multi] + init, last);
      assert [Multi] + commands == ([Multi] + init) + [last];
      assert ([Multi] + commands)[..|commands|] == [Multi] + init;
    }
    assert ([Multi] + commands + [Exec])[..|commands| + 1] == [Multi] + commands;
    AfterSnoc(ClientFlags, Clean, [Multi] + commands, Exec);
    AfterSnoc(ServerFlags, Clean, [Multi] + commands, Exec);
  }

  // GetInto, GetRangeInto: the read buffer is set for one command and unset before the connection goes back.
  method ReadInto(pc: Conn, c: Command, size: nat) returns (reply: Reply)
    requires pc.Poolable() && c.Plain?
    modifies pc
    ensures pc.Poolable()
    ensures pc.received == old(pc.received) + [c] && reply == pc.answer(pc.received)
  {
    hide OnServer, FirstError;
    var conn := new ActiveConn(pc);
    pc.SetReadBuffer(size);
    var error: Option<Reply>;
    reply, error := conn.Do(c);
    PlainFlags(c);
    assert [] + [c] == [c] && conn.use == [c];
    assert conn.before + [c] + [] == conn.before + [c];
    pc.UnsetReadBuffer();
    var forced := conn.Close(false);
  }

  lemma PlainFlags(c: Command)
    requires c.Plain?
    ensures OnClient([c]) == OnServer([c]) == Clean && NoMisuse([c]) && CleanAfterClose([c])
  {
    AfterSnoc(ClientFlags, Clean, [], c);
    AfterSnoc(ServerFlags, Clean, [], c);
    assert [] + [c] == [c] && [c][..0] == [];
    assert [c] + [] == [c];
  }
}
