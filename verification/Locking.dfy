/** Any number of clients served at once: each command takes the lock of its database as the code does,
    and its body runs step by step.  A transition system, and the invariant that compares every state
    with a sequential run of the server.

    A run is a schedule: which thread moves next, as long as the locks let it.
 */
module Locking {
  import opened ByteStrings
  import opened Stores
  import opened Bodies
  import opened Dispatch

  /** What is assumed of boost::shared_mutex. */
  datatype Lock = Lock(shared: set<nat>, upgrade: Option<nat>, exclusive: Option<nat>)

  const FREE := Lock({}, None, None)

  /** A database: its lock and what it holds. */
  datatype Db = Db(lock: Lock, store: Store)

  datatype Pc =
    | Idle                      // between commands
    | Waiting                   // holds upgrade, waits for the readers to leave
    | Running(local: Local)     // holds shared (get) or exclusive (the others)
    | Downgraded(reply: Bytes)  // gave exclusive back for upgrade

  datatype Thread = Thread(todo: seq<Command>, pc: Pc, replies: seq<Bytes>)

  /** A grant of access, or the answer to a command that needs none: the order of these is the order
      in which the commands take effect. */
  datatype Event = Event(thread: nat, command: Command)

  /** walks counts the walks over the table begun so far. */
  datatype Sys = Sys(threads: seq<Thread>, table: Db, tree: Db, walks: nat, log: seq<Event>)

  function Of(sys: Sys, db: DbName): Db {
    if db.TableDb? then sys.table else sys.tree
  }

  function With(sys: Sys, db: DbName, d: Db): Sys {
    if db.TableDb? then sys.(table := d) else sys.(tree := d)
  }

  function EnvOf(w: World): Env {
    Env(w.hash, w.walk)
  }

  /** A fresh server with these clients. */
  function Initial(programs: seq<seq<Command>>): Sys {
    Sys(seq(|programs|, i requires 0 <= i < |programs| => Thread(programs[i], Idle, [])),
        Db(FREE, Map(map[])), Db(FREE, Tree([], {})), 0, [])
  }

  /** What a thread is at. */
  function TaskAt(w: World, th: Thread): Task
    requires th.todo != []
  {
    TaskOf(w, th.todo[0])
  }

  /** Whether the locks let thread t move. */
  predicate Enabled(w: World, sys: Sys, t: nat) {
    t < |sys.threads| && sys.threads[t].todo != [] &&
    var th := sys.threads[t];
    match TaskAt(w, th)
    case NoLock(_) => th.pc.Idle?
    case On(db, op) => (
      var lock := Of(sys, db).lock;
      match th.pc
      case Idle => if op.Get? then lock.exclusive.None? else lock.exclusive.None? && lock.upgrade.None?
      case Waiting => lock.shared == {}
      case Running(_) => true
      case Downgraded(_) => true)
  }

  function Finish(th: Thread, reply: Bytes): Thread
    requires th.todo != []
  {
    Thread(th.todo[1..], Idle, th.replies + [reply])
  }

  function Put(sys: Sys, t: nat, th: Thread): Sys
    requires t < |sys.threads|
  {
    sys.(threads := sys.threads[t := th])
  }

  function WithLock(sys: Sys, db: DbName, lock: Lock): Sys {
    With(sys, db, Of(sys, db).(lock := lock))
  }

  /** How many walks over the table an operation begins. */
  function WalksOf(db: DbName, op: Op): nat {
    if db.TableDb? && op.ForEach? then 1 else 0
  }

  /** Access is granted to t under the given lock: its body begins, and its command enters the log. */
  function Grant(sys: Sys, t: nat, db: DbName, op: Op, lock: Lock): Sys
    requires t < |sys.threads| && sys.threads[t].todo != []
  {
    var th := sys.threads[t];
    WithLock(Put(sys, t, th.(pc := Running(Begin(op, sys.walks)))), db, lock)
    .(walks := sys.walks + WalksOf(db, op), log := sys.log + [Event(t, th.todo[0])])
  }

  function StepOn(w: World, sys: Sys, t: nat, db: DbName, op: Op): Sys
    requires Enabled(w, sys, t)
  {
    var th, lock := sys.threads[t], Of(sys, db).lock;
    match th.pc
    case Idle =>
      if op.Get? then Grant(sys, t, db, op, lock.(shared := lock.shared + {t}))
      else WithLock(Put(sys, t, th.(pc := Waiting)), db, lock.(upgrade := Some(t)))
    case Waiting => Grant(sys, t, db, op, lock.(upgrade := None, exclusive := Some(t)))
    case Running(local) =>
      if !local.Done? then
        var c := BodyStep(EnvOf(w), local, Of(sys, db).store);
        With(Put(sys, t, th.(pc := Running(c.local))), db, Of(sys, db).(store := c.store))
      else if op.Get? then
        WithLock(Put(sys, t, Finish(th, local.reply)), db, lock.(shared := lock.shared - {t}))
      else
        WithLock(Put(sys, t, th.(pc := Downgraded(local.reply))), db, lock.(exclusive := None, upgrade := Some(t)))
    case Downgraded(reply) => WithLock(Put(sys, t, Finish(th, reply)), db, lock.(upgrade := None))
  }

  function Step(w: World, sys: Sys, t: nat): Sys
    requires Enabled(w, sys, t)
  {
    var th := sys.threads[t];
    match TaskAt(w, th)
    case NoLock(reply) => Put(sys, t, Finish(th, reply)).(log := sys.log + [Event(t, th.todo[0])])
    case On(db, op) => StepOn(w, sys, t, db, op)
  }

  // ---- The sequential run to compare with ----

  function CommandsOf(log: seq<Event>): seq<Command> {
    seq(|log|, i requires 0 <= i < |log| => log[i].command)
  }

  /** The logged commands served one after the other by a fresh server. */
  ghost function Sequential(w: World, log: seq<Event>): (r: Served)
    requires GoodWorld(w)
    ensures |r.replies| == |log|
  {
    Serve(w, EMPTY, CommandsOf(log))
  }

  /** The replies, or the commands, of one thread, in order. */
  function RepliesOf(log: seq<Event>, replies: seq<Bytes>, t: nat): seq<Bytes>
    requires |log| == |replies|
  {
    if log == [] then []
    else
      var n := |log| - 1;
      RepliesOf(log[..n], replies[..n], t) + if log[n].thread == t then [replies[n]] else []
  }

  function CommandsBy(log: seq<Event>, t: nat): seq<Command> {
    if log == [] then []
    else
      var n := |log| - 1;
      CommandsBy(log[..n], t) + if log[n].thread == t then [log[n].command] else []
  }

  lemma LogOne(w: World, log: seq<Event>, e: Event)
    requires GoodWorld(w)
    ensures var r := Sequential(w, log);
            var a := Respond(w, r.state, e.command);
            Sequential(w, log + [e]) == Served(a.state, r.replies + [a.reply])
  {
    hide Respond, Serve;
    assert CommandsOf(log + [e]) == CommandsOf(log) + [e.command];
    ServeAppend(w, EMPTY, CommandsOf(log), e.command);
  }

  lemma LogOneBy(log: seq<Event>, replies: seq<Bytes>, e: Event, reply: Bytes, t: nat)
    requires |log| == |replies|
    ensures RepliesOf(log + [e], replies + [reply], t)
         == RepliesOf(log, replies, t) + if e.thread == t then [reply] else []
    ensures CommandsBy(log + [e], t) == CommandsBy(log, t) + if e.thread == t then [e.command] else []
  {
    assert (log + [e])[..|log|] == log && (replies + [reply])[..|log|] == replies;
  }

  lemma {:induction false} ServeKeeps(w: World, s: ServerState, commands: seq<Command>)
    requires GoodWorld(w) && GoodState(w, s)
    ensures GoodState(w, Serve(w, s, commands).state)
    decreases |commands|
  {
    hide Respond, GoodState;
    if commands != [] {
      RespondKeeps(w, s, commands[0]);
      ServeKeeps(w, Respond(w, s, commands[0]).state, commands[1..]);
    }
  }

  lemma SequentialGood(w: World, log: seq<Event>)
    requires GoodWorld(w)
    ensures GoodState(w, Sequential(w, log).state)
  {
    ServeKeeps(w, EMPTY, CommandsOf(log));
  }

  /** What a database holds when the server is in state s and nobody is writing. */
  function StoreIn(s: ServerState, db: DbName): Store {
    if db.TableDb? then Map(s.table) else TreeStore(s.tree)
  }

  /** An operation on one database is the server's answer to the command, and leaves the other alone. */
  lemma ApplyIsRespond(w: World, s: ServerState, args: Command, db: DbName, op: Op)
    requires GoodWorld(w) && TaskOf(w, args) == On(db, op)
    ensures var r := Respond(w, s, args);
            && Apply(EnvOf(w), StoreIn(s, db), op, s.walks) == Outcome(StoreIn(r.state, db), r.reply)
            && r.state.walks == s.walks + WalksOf(db, op)
            && (forall other :: other != db ==> StoreIn(r.state, other) == StoreIn(s, other))
  {
    hide Respond, TaskOf, TableApply, TreeApply;
    TaskMeaning(w, s, args);
  }

  // ---- The invariant ----

  /** Thread t is inside the body of an operation on db. */
  predicate Reads(w: World, sys: Sys, db: DbName, t: nat) {
    t < |sys.threads| && sys.threads[t].pc.Running? && sys.threads[t].todo != [] &&
    var task := TaskAt(w, sys.threads[t]); task.On? && task.db == db && task.op.Get?
  }

  predicate Writes(w: World, sys: Sys, db: DbName, t: nat) {
    t < |sys.threads| && sys.threads[t].pc.Running? && sys.threads[t].todo != [] &&
    var task := TaskAt(w, sys.threads[t]); task.On? && task.db == db && !task.op.Get?
  }

  predicate Upgrades(w: World, sys: Sys, db: DbName, t: nat) {
    t < |sys.threads| && (sys.threads[t].pc.Waiting? || sys.threads[t].pc.Downgraded?) && sys.threads[t].todo != [] &&
    var task := TaskAt(w, sys.threads[t]); task.On? && task.db == db
  }

  /** The lock knows who is where; a writer is alone, and at most one thread holds upgrade. */
  ghost predicate LockOk(w: World, sys: Sys, db: DbName) {
    var lock := Of(sys, db).lock;
    && (forall t: nat :: t in lock.shared <==> Reads(w, sys, db, t))
    && (forall t: nat :: lock.exclusive == Some(t) <==> Writes(w, sys, db, t))
    && (forall t: nat :: lock.upgrade == Some(t) <==> Upgrades(w, sys, db, t))
    && (lock.exclusive.Some? ==> lock.shared == {} && lock.upgrade.None?)
  }

  /** The places in the body of a get. */
  predicate OnlyReads(local: Local) {
    local.Done? || local.ReadingValue? || (local.Begin? && local.op.Get?)
  }

  /** What a running body will answer, left alone. */
  function Upcoming(w: World, task: Task, local: Local, table: Store, tree: Store): Bytes
    requires task.On?
  {
    RunBody(EnvOf(w), local, if task.db.TableDb? then table else tree).reply
  }

  /** What thread t has answered so far, and the command it is at, are its part of the sequential run. */
  ghost predicate ThreadOk(w: World, program: seq<Command>, th: Thread, t: nat, table: Store, tree: Store,
                           log: seq<Event>, replies: seq<Bytes>)
    requires |log| == |replies|
  {
    var mine, begun := RepliesOf(log, replies, t), CommandsBy(log, t);
    match th.pc
    case Idle => mine == th.replies && begun + th.todo == program
    case Waiting =>
      && mine == th.replies && begun + th.todo == program
      && th.todo != [] && TaskAt(w, th).On? && !TaskAt(w, th).op.Get?
    case Running(local) =>
      && th.todo != [] && TaskAt(w, th).On?
      && begun + th.todo[1..] == program && begun != [] && begun[|begun| - 1] == th.todo[0]
      && mine == th.replies + [Upcoming(w, TaskAt(w, th), local, table, tree)]
      && (TaskAt(w, th).op.Get? ==> OnlyReads(local))
    case Downgraded(reply) =>
      && th.todo != [] && TaskAt(w, th).On? && !TaskAt(w, th).op.Get?
      && begun + th.todo[1..] == program && begun != [] && begun[|begun| - 1] == th.todo[0]
      && mine == th.replies + [reply]
  }

  /** With nobody writing the store is that of the sequential run; a writer is on its way there. */
  ghost predicate StoreOk(w: World, sys: Sys, db: DbName, target: Store) {
    var d := Of(sys, db);
    if d.lock.exclusive.Some? then
      var t := d.lock.exclusive.value;
      Writes(w, sys, db, t) && RunBody(EnvOf(w), sys.threads[t].pc.local, d.store).store == target
    else d.store == target
  }

  ghost predicate ThreadsOk(w: World, programs: seq<seq<Command>>, sys: Sys, replies: seq<Bytes>)
    requires |sys.threads| == |programs| && |sys.log| == |replies|
  {
    forall t: nat :: t < |programs| ==>
      ThreadOk(w, programs[t], sys.threads[t], t, sys.table.store, sys.tree.store, sys.log, replies)
  }

  ghost predicate Inv(w: World, programs: seq<seq<Command>>, sys: Sys) {
    && GoodWorld(w)
    && |sys.threads| == |programs|
    && LockOk(w, sys, TableDb) && LockOk(w, sys, TreeDb)
    && var r := Sequential(w, sys.log);
       && StoreOk(w, sys, TableDb, StoreIn(r.state, TableDb))
       && StoreOk(w, sys, TreeDb, StoreIn(r.state, TreeDb))
       && sys.walks == r.state.walks
       && ThreadsOk(w, programs, sys, r.replies)
  }

  lemma InitialInv(w: World, programs: seq<seq<Command>>)
    requires GoodWorld(w)
    ensures Inv(w, programs, Initial(programs))
  {
    hide Respond, TaskOf, RunBody;
  }

  // ---- What one thread's step leaves of the others ----

  /** Reading never changes the store, whoever else is reading. */
  lemma ReadingStep(env: Env, local: Local, store: Store)
    requires OnlyReads(local)
    ensures BodyStep(env, local, store).store == store && OnlyReads(BodyStep(env, local, store).local)
  {}

  /** A thread keeps its part of the invariant when the log grows by another's event. */
  lemma OthersLog(w: World, program: seq<Command>, th: Thread, t: nat, table: Store, tree: Store,
                  log: seq<Event>, replies: seq<Bytes>, e: Event, reply: Bytes)
    requires |log| == |replies| && e.thread != t
    requires ThreadOk(w, program, th, t, table, tree, log, replies)
    ensures ThreadOk(w, program, th, t, table, tree, log + [e], replies + [reply])
  {
    hide RunBody, RepliesOf, CommandsBy, TaskOf;
    LogOneBy(log, replies, e, reply, t);
    assert RepliesOf(log, replies, t) + [] == RepliesOf(log, replies, t);
    assert CommandsBy(log, t) + [] == CommandsBy(log, t);
  }

  /** ... and when the store of a database changes in whose bodies it is not. */
  lemma OthersStore(w: World, program: seq<Command>, th: Thread, t: nat, table: Store, tree: Store,
                    table': Store, tree': Store, log: seq<Event>, replies: seq<Bytes>)
    requires |log| == |replies| && ThreadOk(w, program, th, t, table, tree, log, replies)
    requires th.pc.Running? && th.todo != [] && TaskAt(w, th).On? ==>
               if TaskAt(w, th).db.TableDb? then table' == table else tree' == tree
    ensures ThreadOk(w, program, th, t, table', tree', log, replies)
  {
    hide RunBody, RepliesOf, CommandsBy, TaskOf;
  }

  /** The lock of a database nobody's place in which has changed. */
  lemma OtherLock(w: World, sys: Sys, next: Sys, db: DbName, t: nat)
    requires LockOk(w, sys, db) && Of(next, db).lock == Of(sys, db).lock
    requires t < |sys.threads| == |next.threads|
    requires forall u: nat :: u < |sys.threads| && u != t ==> next.threads[u] == sys.threads[u]
    requires Reads(w, next, db, t) == Reads(w, sys, db, t) && Writes(w, next, db, t) == Writes(w, sys, db, t)
    requires Upgrades(w, next, db, t) == Upgrades(w, sys, db, t)
    ensures LockOk(w, next, db)
  {
    hide TaskOf;
    forall u: nat
      ensures Reads(w, next, db, u) == Reads(w, sys, db, u)
      ensures Writes(w, next, db, u) == Writes(w, sys, db, u)
      ensures Upgrades(w, next, db, u) == Upgrades(w, sys, db, u)
    {}
  }

  lemma OtherStore(w: World, sys: Sys, next: Sys, db: DbName, t: nat, target: Store)
    requires LockOk(w, sys, db) && StoreOk(w, sys, db, target) && Of(next, db) == Of(sys, db)
    requires t < |sys.threads| == |next.threads| && !Writes(w, sys, db, t)
    requires forall u: nat :: u < |sys.threads| && u != t ==> next.threads[u] == sys.threads[u]
    ensures StoreOk(w, next, db, target)
  {
    hide TaskOf, RunBody;
  }
}
