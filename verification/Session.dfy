/** Session: one connection, its one outstanding operation, and what its client gets to see. */
module Sessions {
  import opened ByteStrings
  import opened Protocol
  import opened Streams
  import opened Dispatch
  import opened Handlers

  /** What the I/O layer reports: a read or a write has ended. */
  datatype Event = ReadDone(error: bool, bytes: Bytes) | WriteDone(error: bool)

  /** A connection as a value: which operations are pending, what is buffered, what was sent. */
  datatype Conn = Conn(alive: bool, pendingReads: nat, pendingWrites: nat,
                       pending: Bytes, server: ServerState, sent: seq<Bytes>)

  /** A completion is reported only for a pending operation. */
  predicate Possible(c: Conn, e: Event) {
    match e
    case ReadDone(error, bytes) => c.pendingReads > 0 && (error || !Parse(c.pending + bytes).Undefined?)
    case WriteDone(_) => c.pendingWrites > 0
  }

  ghost function Next(w: World, c: Conn, e: Event): Conn
    requires GoodWorld(w) && Possible(c, e)
  {
    match e
    case WriteDone(error) =>
      if error then c.(pendingWrites := c.pendingWrites - 1, alive := false)
      else c.(pendingWrites := c.pendingWrites - 1, pendingReads := c.pendingReads + 1)
    case ReadDone(error, bytes) =>
      if error then c.(pendingReads := c.pendingReads - 1, alive := false)
      else match Parse(c.pending + bytes)
        case NeedMore(_) => c.(pending := c.pending + bytes)
        case Execute(args, _) =>
          var r := Respond(w, c.server, args);
          c.(pendingReads := c.pendingReads - 1, pendingWrites := c.pendingWrites + 1,
             pending := "", server := r.state, sent := c.sent + [r.reply])
        case _ => c.(pending := "")
  }

  predicate OneOutstanding(c: Conn) {
    c.pendingReads + c.pendingWrites == if c.alive then 1 else 0
  }

  class Session {
    const handler: CommandHandler
    var alive: bool
    var pendingReads: nat
    var pendingWrites: nat
    var sent: seq<Bytes>  // messages given to async_write

    ghost function Repr(): set<object>
      reads this, handler, handler.commands, handler.commands.dbAvlTree
    {
      {this, handler} + handler.commands.Repr()
    }

    /** A live session waits for exactly one completion, a deleted one for none, and every reply
        the handler has produced is on its way. */
    ghost predicate Valid()
      reads this, handler, handler.commands, handler.commands.dbHashTable, handler.commands.dbAvlTree,
            handler.commands.dbAvlTree.Repr
    {
      && handler.Valid() && this !in handler.commands.Repr()
      && OneOutstanding(State())
      && sent == handler.finished
    }

    ghost function State(): Conn
      reads this, handler, handler.commands, handler.commands.dbHashTable, handler.commands.dbAvlTree
    {
      Conn(alive, pendingReads, pendingWrites, handler.commandString, handler.commands.State(), sent)
    }

    /** A new session, started: it is waiting for its first bytes. */
    constructor (commands: Commands)
      requires commands.Valid()
      ensures Valid() && handler.commands == commands && fresh(handler)
      ensures State() == Conn(true, 1, 0, "", commands.State(), [])
    {
      handler := new CommandHandler(commands);
      alive, pendingReads, pendingWrites, sent := true, 0, 0, [];
      new;
      AsyncRead();
    }

    method AsyncRead()
      modifies this`pendingReads
      ensures pendingReads == old(pendingReads) + 1
    {
      pendingReads := pendingReads + 1;
    }

    method AsyncWrite(message: Bytes)
      modifies this`pendingWrites, this`sent
      ensures pendingWrites == old(pendingWrites) + 1 && sent == old(sent) + [message]
    {
      pendingWrites := pendingWrites + 1;
      sent := sent + [message];
    }

    method HandleRead(error: bool, bytes: Bytes)
      requires Valid() && Possible(State(), ReadDone(error, bytes))
      modifies Repr()
      ensures Valid()
      ensures State() == old(Next(handler.commands.world, State(), ReadDone(error, bytes)))
    {
      hide Respond, Parse;
      pendingReads := pendingReads - 1;
      if error {
        alive := false;  // delete this
        return;
      }

      var fired := |handler.finished|;
      var needMore := handler.FeedAndParseCommand(bytes);
      // the finish callback is asyncWrite
      while fired < |handler.finished|
        invariant fired <= |handler.finished| && sent == handler.finished[..fired]
        invariant pendingReads == old(pendingReads) - 1 && pendingWrites == old(pendingWrites) + |sent| - |old(sent)|
        invariant alive == old(alive)
        modifies this`pendingWrites, this`sent
      {
        AsyncWrite(handler.finished[fired]);
        fired := fired + 1;
      }
      if needMore {
        AsyncRead();
      }
    }

    method HandleWrite(error: bool)
      requires Valid() && Possible(State(), WriteDone(error))
      modifies this`alive, this`pendingReads, this`pendingWrites
      ensures Valid()
      ensures State() == old(Next(handler.commands.world, State(), WriteDone(error)))
    {
      hide Respond, Parse;
      pendingWrites := pendingWrites - 1;
      if error {
        alive := false;  // delete this
        return;
      }
      AsyncRead();
    }
  }

  // ---- Whole runs ----

  ghost function RunEvents(w: World, c: Conn, events: seq<Event>): Option<Conn>
    requires GoodWorld(w)
    decreases |events|
  {
    if events == [] then Some(c)
    else if Possible(c, events[0]) then RunEvents(w, Next(w, c, events[0]), events[1..])
    else None
  }

  predicate Fails(e: Event) {
    e.error
  }

  /** In every run from a session with one operation outstanding: it stays so while the session lives,
      only the last event of a run can be a failure, and after the failure nothing can happen. */
  lemma {:induction false} SingleOutstanding(w: World, c: Conn, events: seq<Event>)
    requires GoodWorld(w) && OneOutstanding(c)
    requires RunEvents(w, c, events).Some?
    ensures var d := RunEvents(w, c, events).value;
            && OneOutstanding(d)
            && (forall i :: 0 <= i < |events| && Fails(events[i]) ==> i == |events| - 1 && c.alive && !d.alive)
            && (!d.alive ==> forall e :: !Possible(d, e))
            && (d.alive <==> c.alive && forall i :: 0 <= i < |events| ==> !Fails(events[i]))
    decreases |events|
  {
    hide Respond, Parse;
    if events != [] {
      var d := Next(w, c, events[0]);
      assert c.alive;
      assert d.alive <==> !Fails(events[0]);
      SingleOutstanding(w, d, events[1..]);
      assert forall i :: 0 < i < |events| ==> events[i] == events[1..][i - 1];
    }
  }

  // ---- What a client sees ----

  /** The events of a client that sends these chunks and reads each reply before it goes on. */
  ghost function Drive(w: World, c: Conn, chunks: seq<Bytes>): Conn
    requires GoodWorld(w) && c.alive && c.pendingReads == 1 && c.pendingWrites == 0
    requires Defined(Progress(c.pending, []), chunks)
    decreases |chunks|
  {
    if chunks == [] then c
    else
      var d := Next(w, c, ReadDone(false, chunks[0]));
      DefinedAnyway(Feed(Progress(c.pending, []), chunks[0]), Progress(d.pending, []), chunks[1..]);
      Drive(w, if d.pendingWrites > 0 then Next(w, d, WriteDone(false)) else d, chunks[1..])
  }

  lemma {:induction false} DefinedAnyway(p: Progress, q: Progress, chunks: seq<Bytes>)
    requires p.pending == q.pending
    ensures Defined(p, chunks) <==> Defined(q, chunks)
    ensures var a, b := FeedAll(p, chunks), FeedAll(q, chunks);
            a.pending == b.pending && p.executed <= a.executed && q.executed <= b.executed
            && a.executed[|p.executed|..] == b.executed[|q.executed|..]
    decreases |chunks|
  {
    hide Parse;
    if chunks != [] {
      var p', q' := Feed(p, chunks[0]), Feed(q, chunks[0]);
      DefinedAnyway(p', q', chunks[1..]);
      var a, b := FeedAll(p', chunks[1..]).executed, FeedAll(q', chunks[1..]).executed;
      if |p'.executed| > |p.executed| {
        assert a[|p.executed|..] == [p'.executed[|p.executed|]] + a[|p'.executed|..];
        assert b[|q.executed|..] == [q'.executed[|q.executed|]] + b[|q'.executed|..];
      }
    }
  }
}
