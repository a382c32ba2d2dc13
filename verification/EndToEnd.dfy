/** From the bytes a client sends to the replies it reads: the server as a plain key-value machine. */
module EndToEnd {
  import opened ByteStrings
  import opened Protocol
  import opened Streams
  import opened Stores
  import opened Dispatch
  import opened Sessions
  import Replies

  /** A connection waiting for bytes, with nothing buffered. */
  function Waiting(s: ServerState): Conn {
    Conn(true, 1, 0, "", s, [])
  }

  /** What has been executed before does not change what will be. */
  lemma FeedAllFrom(p: Progress, chunks: seq<Bytes>)
    ensures FeedAll(p, chunks).executed == p.executed + FeedAll(Progress(p.pending, []), chunks).executed
    ensures FeedAll(p, chunks).pending == FeedAll(Progress(p.pending, []), chunks).pending
    ensures Defined(p, chunks) <==> Defined(Progress(p.pending, []), chunks)
  {
    hide FeedAll, Defined;
    DefinedAnyway(p, Progress(p.pending, []), chunks);
    var a, b := FeedAll(p, chunks).executed, FeedAll(Progress(p.pending, []), chunks).executed;
    assert b == b[0..];
    assert a == p.executed + a[|p.executed|..];
  }

  /** The session gives the replies of the commands the stream executes: no more, no fewer, in order. */
  lemma {:induction false} DriveServes(w: World, c: Conn, chunks: seq<Bytes>)
    requires GoodWorld(w) && c.alive && c.pendingReads == 1 && c.pendingWrites == 0
    requires Defined(Progress(c.pending, []), chunks)
    ensures var p := FeedAll(Progress(c.pending, []), chunks);
            var r := Serve(w, c.server, p.executed);
            Drive(w, c, chunks) == Conn(true, 1, 0, p.pending, r.state, c.sent + r.replies)
    decreases |chunks|
  {
    hide Parse, Respond;
    var start := Progress(c.pending, []);
    if chunks == [] {
      assert c.sent + [] == c.sent;
    } else {
      var d := Next(w, c, ReadDone(false, chunks[0]));
      var e := if d.pendingWrites > 0 then Next(w, d, WriteDone(false)) else d;
      var p := Feed(start, chunks[0]);
      FeedAllFrom(p, chunks[1..]);
      assert e.pending == p.pending;
      DriveServes(w, e, chunks[1..]);
      var later := FeedAll(Progress(p.pending, []), chunks[1..]).executed;
      if p.executed == [] {
        assert p.executed + later == later;
      } else {
        ServeFirst(w, c.server, p.executed[0], later);
        assert p.executed == [p.executed[0]];
      }
    }
  }

  lemma ServeFirst(w: World, s: ServerState, args: Command, later: seq<Command>)
    requires GoodWorld(w)
    ensures var r := Respond(w, s, args);
            var rest := Serve(w, r.state, later);
            Serve(w, s, [args] + later) == Served(rest.state, [r.reply] + rest.replies)
  {
    hide Respond;
    assert ([args] + later)[1..] == later && ([args] + later)[0] == args;
  }

  /** End to end: commands sent as bulk requests cut at will or as whole inline requests, each ending on
      a chunk boundary, are answered once each, in order, by the server's own replies. */
  lemma ClientSees(w: World, s: ServerState, commands: seq<Command>, groups: seq<seq<Bytes>>)
    requires GoodWorld(w) && Conversation(commands, groups)
    ensures Defined(START, Join(groups))
    ensures var r := Serve(w, s, commands);
            Drive(w, Waiting(s), Join(groups)) == Conn(true, 1, 0, "", r.state, r.replies)
  {
    hide Parse, Respond, Defined, FeedAll, Drive;
    ConversationExecutes([], commands, groups);
    assert [] + commands == commands;
    DriveServes(w, Waiting(s), Join(groups));
    var r := Serve(w, s, commands);
    assert [] + r.replies == r.replies;
  }

  // ---- The abstract machine: two maps and nothing else ----

  datatype Kv = Kv(table: Table, tree: Table)

  function MapOf(kv: Kv, db: DbName): Table {
    if db.TableDb? then kv.table else kv.tree
  }

  function WithMap(kv: Kv, db: DbName, m: Table): Kv {
    if db.TableDb? then kv.(table := m) else kv.(tree := m)
  }

  /** One operation on a map.  After a foreach that fails the machine only knows the reply. */
  function MapApply(m: Table, op: Op): Outcome<Table> {
    match op
    case Get(key) => Outcome(m, if key in m then Replies.ToReplyString(m[key]) else Replies.NIL)
    case Set(key, value) => Outcome(m[key := value], Replies.OK)
    case Del(key) => Outcome(m - {key}, if key in m then Replies.TRUE else Replies.FALSE)
    case ForEach(None) => Outcome(m, Replies.ERROR)
    case ForEach(Some(f)) =>
      if Succeeds(m, f) then Outcome(map k | k in m :: f(k, m[k]).value, Replies.TRUE) else Outcome(m, Replies.ERROR)
  }

  datatype Answer = Answer(kv: Kv, reply: Bytes)

  function KvRespond(w: World, kv: Kv, args: Command): Answer {
    match TaskOf(w, args)
    case NoLock(reply) => Answer(kv, reply)
    case On(db, op) =>
      var o := MapApply(MapOf(kv, db), op);
      Answer(WithMap(kv, db, o.store), o.reply)
  }

  function KvReplies(w: World, kv: Kv, commands: seq<Command>): seq<Bytes>
    decreases |commands|
  {
    if commands == [] then []
    else
      var a := KvRespond(w, kv, commands[0]);
      [a.reply] + KvReplies(w, a.kv, commands[1..])
  }

  /** The keys a command names in the tree are among these. */
  predicate WithinKeys(w: World, keys: set<Bytes>, args: Command) {
    match TaskOf(w, args)
    case On(TreeDb, op) => KeysOf(op) <= keys
    case _ => true
  }

  /** The command is not a foreach whose callback fails. */
  predicate Unfailing(w: World, kv: Kv, args: Command) {
    match TaskOf(w, args)
    case On(db, op) => Accepted(MapOf(kv, db), op)
    case _ => true
  }

  /** No foreach fails, except perhaps as the last command. */
  predicate SteadyCommands(w: World, kv: Kv, commands: seq<Command>)
    decreases |commands|
  {
    |commands| <= 1 ||
    (Unfailing(w, kv, commands[0]) && SteadyCommands(w, KvRespond(w, kv, commands[0]).kv, commands[1..]))
  }

  /** The server's state and the machine's hold the same. */
  ghost predicate Represents(w: World, keys: set<Bytes>, s: ServerState, kv: Kv) {
    s.table == kv.table && Agree(w.hash, s.tree, kv.tree) && kv.tree.Keys <= keys
  }

  lemma TableIsMap(m: Table, op: Op, order: seq<Bytes>)
    requires Enumerates(order, m.Keys)
    ensures TableApply(m, op, order).reply == MapApply(m, op).reply
    ensures Accepted(m, op) ==> TableApply(m, op, order).store == MapApply(m, op).store
  {
    if op.ForEach? && op.vm.Some? {
      ReplyOfForEach(m, op.vm.value, order);
      if Succeeds(m, op.vm.value) { SettledStore(m, op.vm.value, order); }
    } else if op.Del? && op.key !in m {
      assert m - {op.key} == m;
    }
  }

  /** One command: the same reply, and unless it is a failing foreach the states still correspond. */
  lemma KvStep(w: World, keys: set<Bytes>, s: ServerState, kv: Kv, args: Command)
    requires GoodWorld(w) && InjectiveOn(w.hash, keys)
    requires Represents(w, keys, s, kv) && WithinKeys(w, keys, args)
    ensures Respond(w, s, args).reply == KvRespond(w, kv, args).reply
    ensures Unfailing(w, kv, args) ==> Represents(w, keys, Respond(w, s, args).state, KvRespond(w, kv, args).kv)
  {
    hide Respond, TaskOf, TableApply, TreeApply, MapApply, Agree, InjectiveOn, Accepted;
    TaskMeaning(w, s, args);
    match TaskOf(w, args)
    case NoLock(_) =>
    case On(TableDb, op) => TableIsMap(s.table, op, w.walk(s.walks, s.table.Keys));
    case On(TreeDb, op) => TreeKvStep(w, keys, s.tree, kv.tree, op);
  }

  lemma TreeKvStep(w: World, keys: set<Bytes>, es: Entries, m: Table, op: Op)
    requires GoodWorld(w) && InjectiveOn(w.hash, keys)
    requires Agree(w.hash, es, m) && m.Keys <= keys && KeysOf(op) <= keys
    ensures TreeApply(w.hash, es, op).reply == MapApply(m, op).reply
    ensures Accepted(m, op) ==>
              var t, p := TreeApply(w.hash, es, op), MapApply(m, op);
              Agree(w.hash, t.store, p.store) && p.store.Keys <= keys
  {
    hide TableApply, TreeApply, MapApply, Agree, InjectiveOn;
    var order := w.walk(0, m.Keys);
    TableIsMap(m, op, order);
    AgreeStep(w.hash, keys, es, m, op, order);
  }

  lemma {:induction false} KvRun(w: World, keys: set<Bytes>, s: ServerState, kv: Kv, commands: seq<Command>)
    requires GoodWorld(w) && InjectiveOn(w.hash, keys) && Represents(w, keys, s, kv)
    requires forall i :: 0 <= i < |commands| ==> WithinKeys(w, keys, commands[i])
    requires SteadyCommands(w, kv, commands)
    ensures Serve(w, s, commands).replies == KvReplies(w, kv, commands)
    decreases |commands|
  {
    hide Respond, KvRespond, WithinKeys, Unfailing, Represents, InjectiveOn;
    if commands != [] {
      KvStep(w, keys, s, kv, commands[0]);
      if |commands| > 1 {
        KvRun(w, keys, Respond(w, s, commands[0]).state, KvRespond(w, kv, commands[0]).kv, commands[1..]);
      }
    }
  }

  /** The whole server refines two maps: a client of a fresh server, over tree keys that do not collide,
      reads exactly the replies of the plain machine, however its requests were cut on the way, up to
      and including the first foreach whose callback fails. */
  lemma ServerRefinesMaps(w: World, keys: set<Bytes>, commands: seq<Command>, groups: seq<seq<Bytes>>)
    requires GoodWorld(w) && InjectiveOn(w.hash, keys) && Conversation(commands, groups)
    requires forall i :: 0 <= i < |commands| ==> WithinKeys(w, keys, commands[i])
    requires SteadyCommands(w, Kv(map[], map[]), commands)
    ensures Defined(START, Join(groups))
    ensures Drive(w, Waiting(EMPTY), Join(groups)).sent == KvReplies(w, Kv(map[], map[]), commands)
  {
    hide Respond, KvRespond, WithinKeys, InjectiveOn, Drive, Defined, KvReplies, SteadyCommands;
    ClientSees(w, EMPTY, commands, groups);
    KvRun(w, keys, EMPTY, Kv(map[], map[]), commands);
  }

  // ---- The same over whole runs, failing foreach or not ----

  /** One answer the machine may give: a foreach walks its map in any order. */
  ghost predicate KvMayAnswer(w: World, kv: Kv, args: Command, a: Answer) {
    match TaskOf(w, args)
    case NoLock(reply) => a == Answer(kv, reply)
    case On(db, op) =>
      exists order | Enumerates(order, MapOf(kv, db).Keys) ::
        var o := TableApply(MapOf(kv, db), op, order);
        a == Answer(WithMap(kv, db, o.store), o.reply)
  }

  /** The replies the machine may give to these commands. */
  ghost predicate KvHistory(w: World, kv: Kv, commands: seq<Command>, replies: seq<Bytes>)
    decreases |commands|
  {
    if commands == [] then replies == []
    else
      replies != [] &&
      exists a :: KvMayAnswer(w, kv, commands[0], a) && a.reply == replies[0]
                  && KvHistory(w, a.kv, commands[1..], replies[1..])
  }

  lemma AnswerIn(w: World, kv: Kv, args: Command, db: DbName, op: Op, order: seq<Bytes>) returns (a: Answer)
    requires TaskOf(w, args) == On(db, op) && Enumerates(order, MapOf(kv, db).Keys)
    ensures KvMayAnswer(w, kv, args, a)
    ensures var o := TableApply(MapOf(kv, db), op, order); a == Answer(WithMap(kv, db, o.store), o.reply)
  {
    hide TaskOf, TableApply, Enumerates;
    var o := TableApply(MapOf(kv, db), op, order);
    a := Answer(WithMap(kv, db, o.store), o.reply);
  }

  /** Whatever the command, the server answers as the machine may, and they still correspond. */
  lemma KvMayStep(w: World, keys: set<Bytes>, s: ServerState, kv: Kv, args: Command) returns (a: Answer)
    requires GoodWorld(w) && InjectiveOn(w.hash, keys)
    requires Represents(w, keys, s, kv) && WithinKeys(w, keys, args)
    ensures KvMayAnswer(w, kv, args, a) && a.reply == Respond(w, s, args).reply
    ensures Represents(w, keys, Respond(w, s, args).state, a.kv)
  {
    hide Respond, TaskOf, TableApply, TreeApply, Agree, InjectiveOn;
    TaskMeaning(w, s, args);
    match TaskOf(w, args)
    case NoLock(reply) => a := Answer(kv, reply);
    case On(TableDb, op) =>
      var order := w.walk(s.walks, s.table.Keys);
      a := AnswerIn(w, kv, args, TableDb, op, order);
    case On(TreeDb, op) =>
      AgreeInListOrder(w.hash, keys, s.tree, kv.tree, op);
      a := AnswerIn(w, kv, args, TreeDb, op, ListOrder(s.tree));
  }

  lemma {:induction false} ServeIsHistory(w: World, keys: set<Bytes>, s: ServerState, kv: Kv, commands: seq<Command>)
    requires GoodWorld(w) && InjectiveOn(w.hash, keys) && Represents(w, keys, s, kv)
    requires forall i :: 0 <= i < |commands| ==> WithinKeys(w, keys, commands[i])
    ensures KvHistory(w, kv, commands, Serve(w, s, commands).replies)
    decreases |commands|
  {
    hide Respond, KvMayAnswer, WithinKeys, Represents, InjectiveOn;
    if commands != [] {
      var a := KvMayStep(w, keys, s, kv, commands[0]);
      var next := Respond(w, s, commands[0]).state;
      ServeIsHistory(w, keys, next, a.kv, commands[1..]);
      assert Serve(w, s, commands).replies[1..] == Serve(w, next, commands[1..]).replies;
    }
  }

  lemma EmptyMaps(w: World, keys: set<Bytes>)
    ensures Represents(w, keys, EMPTY, Kv(map[], map[]))
  {}

  /** A client of a fresh server, over tree keys that do not collide, reads what two plain maps may
      answer, however its requests were cut and whatever callbacks fail on the way. */
  lemma ServerIsTwoMaps(w: World, keys: set<Bytes>, commands: seq<Command>, groups: seq<seq<Bytes>>)
    requires GoodWorld(w) && InjectiveOn(w.hash, keys) && Conversation(commands, groups)
    requires forall i :: 0 <= i < |commands| ==> WithinKeys(w, keys, commands[i])
    ensures Defined(START, Join(groups))
    ensures KvHistory(w, Kv(map[], map[]), commands, Drive(w, Waiting(EMPTY), Join(groups)).sent)
  {
    hide Respond, KvHistory, WithinKeys, InjectiveOn, Drive, Defined, Serve, Represents, Conversation;
    ClientSees(w, EMPTY, commands, groups);
    EmptyMaps(w, keys);
    ServeIsHistory(w, keys, EMPTY, Kv(map[], map[]), commands);
  }
}
