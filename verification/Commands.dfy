/** Commands: the table of commands, its arity check, and what a whole server answers. */
module Dispatch {
  import opened ByteStrings
  import opened Numbers
  import opened Stores
  import opened AvlTrees
  import opened HashTables
  import Replies

  datatype CommandCallback = CommandsList | PingPong | Version
                     | HGet | HSet | HDel | HFor
                     | AtGet | AtSet | AtDel | AtFor

  datatype CallbackInfo = CallbackInfo(callback: CommandCallback, numberOfArguments: int)

  /** What find hands back: a callback of the table, or one of the two that only report. */
  datatype Bound =
    | Call(callback: CommandCallback)
    | NotImplemented
    | Malformed(input: nat, expected: nat)

  type CommandTable = map<Bytes, CallbackInfo>

  /** The commands that need no database. */
  function WithGeneric(m: CommandTable): CommandTable {
    m["COMMANDS" := CallbackInfo(CommandsList, 0)]
     ["PING" := CallbackInfo(PingPong, 0)]
     ["VERSION" := CallbackInfo(Version, -1)]  // any number of arguments
  }

  function WithDatabases(m: CommandTable): CommandTable {
    m["HGET" := CallbackInfo(HGet, 1)]["HSET" := CallbackInfo(HSet, 2)]
     ["HDEL" := CallbackInfo(HDel, 1)]["HFOR" := CallbackInfo(HFor, 1)]
     ["ATGET" := CallbackInfo(AtGet, 1)]["ATSET" := CallbackInfo(AtSet, 2)]
     ["ATDEL" := CallbackInfo(AtDel, 1)]["ATFOR" := CallbackInfo(AtFor, 1)]
  }

  /** Every command the server knows. */
  const COMMANDS: CommandTable := WithDatabases(WithGeneric(map[]))

  function Find(commands: CommandTable, name: Bytes, numberOfArguments: nat): Bound {
    if name !in commands then NotImplemented
    else
      var expected := commands[name].numberOfArguments;
      if expected >= 0 && expected != numberOfArguments then Malformed(numberOfArguments, expected)
      else Call(commands[name].callback)
  }

  /** The highest argument index a callback reads. */
  function LastIndexRead(callback: CommandCallback): nat {
    match callback
    case CommandsList => 0
    case PingPong => 0
    case Version => 0  // it looks at index 1 only after checking the size
    case HSet => 2
    case AtSet => 2
    case _ => 1
  }

  /** Dispatch soundness: whichever callback is chosen reads only arguments that exist. */
  lemma FoundReadsInside(args: Command)
    ensures var bound := Find(COMMANDS, args[0], |args| - 1);
            && (bound.Call? ==> LastIndexRead(bound.callback) < |args|)
            && (bound.NotImplemented? <==> args[0] !in COMMANDS)
            && (bound.Malformed? <==>
                  args[0] in COMMANDS && 0 <= COMMANDS[args[0]].numberOfArguments != |args| - 1)
            && (bound.Malformed? ==>
                  bound.input == |args| - 1 && bound.expected == COMMANDS[args[0]].numberOfArguments)
  {}

  // ---- The server as a function ----

  /** What the process brings with it and never changes. */
  datatype World = World(
    hash: Hash,
    compile: Bytes -> Option<Callback>,
    walk: Walk,
    version: bool -> Bytes,
    listing: seq<Bytes>)  // how the command table is walked

  datatype ServerState = ServerState(table: Table, walks: nat, tree: Entries)

  const EMPTY := ServerState(map[], 0, [])

  datatype Response = Response(state: ServerState, reply: Bytes)

  ghost predicate GoodWorld(w: World) {
    GoodWalk(w.walk) && Enumerates(w.listing, COMMANDS.Keys)
  }

  /** Some order of these keys. */
  ghost function SomeOrder(keys: set<Bytes>): (order: seq<Bytes>)
    ensures Enumerates(order, keys)
  {
    HasOrder(keys);
    var order :| Enumerates(order, keys);
    order
  }

  lemma HasOrder(keys: set<Bytes>)
    ensures exists order :: Enumerates(order, keys)
  {
    var order := EnumerationExists(keys, None);
  }

  /** Good worlds exist, for every hash, every compiler of scripts and every version text. */
  lemma GoodWorldExists(hash: Hash, compile: Bytes -> Option<Callback>, version: bool -> Bytes) returns (w: World)
    ensures GoodWorld(w) && w.hash == hash && w.compile == compile && w.version == version
  {
    w := World(hash, compile, (_, keys) => SomeOrder(keys), version, SomeOrder(COMMANDS.Keys));
  }

  function Lines(names: seq<Bytes>): Bytes {
    if names == [] then "" else Lines(names[..|names| - 1]) + names[|names| - 1] + "\n"
  }

  function NotImplementedReply(name: Bytes): Bytes {
    Replies.ToErrorReplyString(name + " is not implemented")
  }

  function MalformedReply(name: Bytes, input: nat, expected: nat): Bytes {
    Replies.ToErrorReplyString(
      name + " malformed number of arguments (" + Decimal(input) + " vs " + Decimal(expected) + ")")
  }

  /** The database operation a callback stands for. */
  function OpOf(w: World, callback: CommandCallback, args: seq<Bytes>): Op
    requires LastIndexRead(callback) >= 1 && LastIndexRead(callback) < |args|
  {
    match callback
    case HGet => Get(args[1])
    case AtGet => Get(args[1])
    case HSet => Set(args[1], args[2])
    case AtSet => Set(args[1], args[2])
    case HDel => Del(args[1])
    case AtDel => Del(args[1])
    case _ => ForEach(w.compile(args[1]))
  }

  predicate OnTable(callback: CommandCallback) {
    callback.HGet? || callback.HSet? || callback.HDel? || callback.HFor?
  }

  ghost function OnTableState(w: World, s: ServerState, op: Op): Response
    requires GoodWorld(w)
  {
    var o := TableApply(s.table, op, w.walk(s.walks, s.table.Keys));
    Response(ServerState(o.store, s.walks + (if op.ForEach? && op.vm.Some? then 1 else 0), s.tree), o.reply)
  }

  ghost function OnTreeState(w: World, s: ServerState, op: Op): Response {
    var o := TreeApply(w.hash, s.tree, op);
    Response(s.(tree := o.store), o.reply)
  }

  /** The callbacks that need no database. */
  function GenericReply(w: World, callback: CommandCallback, args: seq<Bytes>): Bytes {
    match callback
    case CommandsList => Replies.ToReplyString(Lines(w.listing))
    case Version => Replies.ToInlineReplyString(w.version(|args| == 2 && args[1] == "VERBOSE"))
    case _ => Replies.ToInlineReplyString("PONG")
  }

  ghost function RunCallback(w: World, s: ServerState, callback: CommandCallback, args: seq<Bytes>): Response
    requires GoodWorld(w) && LastIndexRead(callback) < |args|
  {
    if LastIndexRead(callback) == 0 then Response(s, GenericReply(w, callback, args))
    else if OnTable(callback) then OnTableState(w, s, OpOf(w, callback, args))
    else OnTreeState(w, s, OpOf(w, callback, args))
  }

  ghost function Respond(w: World, s: ServerState, args: Command): Response
    requires GoodWorld(w)
  {
    FoundReadsInside(args);
    match Find(COMMANDS, args[0], |args| - 1)
    case Call(callback) => RunCallback(w, s, callback, args)
    case NotImplemented => Response(s, NotImplementedReply(args[0]))
    case Malformed(input, expected) => Response(s, MalformedReply(args[0], input, expected))
  }

  // ---- Commands as the threads see them: at most one database each ----

  datatype DbName = TableDb | TreeDb

  datatype Task =
    | NoLock(reply: Bytes)          // answered without any database
    | On(db: DbName, op: Op)

  /** The callback chosen for a command, if it is one of a database. */
  function DatabaseCall(args: Command): Option<CommandCallback> {
    var bound := Find(COMMANDS, args[0], |args| - 1);
    if bound.Call? && LastIndexRead(bound.callback) >= 1 then Some(bound.callback) else None
  }

  /** The reply of a command that is not one of a database. */
  function StaticReply(w: World, args: Command): Bytes {
    match Find(COMMANDS, args[0], |args| - 1)
    case Call(callback) => GenericReply(w, callback, args)
    case NotImplemented => NotImplementedReply(args[0])
    case Malformed(input, expected) => MalformedReply(args[0], input, expected)
  }

  /** What a command has to do under which lock.  A script that does not compile needs none. */
  function TaskOf(w: World, args: Command): Task {
    FoundReadsInside(args);
    match DatabaseCall(args)
    case None => NoLock(StaticReply(w, args))
    case Some(callback) =>
      var op := OpOf(w, callback, args);
      if op.ForEach? && op.vm.None? then NoLock(Replies.ERROR)
      else On(if OnTable(callback) then TableDb else TreeDb, op)
  }

  /** A command is its task. */
  lemma TaskMeaning(w: World, s: ServerState, args: Command)
    requires GoodWorld(w)
    ensures Respond(w, s, args) ==
            match TaskOf(w, args)
            case NoLock(reply) => Response(s, reply)
            case On(TableDb, op) => OnTableState(w, s, op)
            case On(TreeDb, op) => OnTreeState(w, s, op)
    ensures TaskOf(w, args).On? ==> !(TaskOf(w, args).op.ForEach? && TaskOf(w, args).op.vm.None?)
  {
    hide Lines, COMMANDS;
    FoundReadsInside(args);
  }

  datatype Served = Served(state: ServerState, replies: seq<Bytes>)

  /** The commands answered one after the other. */
  ghost function Serve(w: World, s: ServerState, commands: seq<Command>): (r: Served)
    requires GoodWorld(w)
    ensures |r.replies| == |commands|
    decreases |commands|
  {
    if commands == [] then Served(s, [])
    else
      var r := Respond(w, s, commands[0]);
      var rest := Serve(w, r.state, commands[1..]);
      Served(rest.state, [r.reply] + rest.replies)
  }

  lemma {:induction false} ServeAppend(w: World, s: ServerState, commands: seq<Command>, args: Command)
    requires GoodWorld(w)
    ensures var r := Serve(w, s, commands);
            var a := Respond(w, r.state, args);
            Serve(w, s, commands + [args]) == Served(a.state, r.replies + [a.reply])
    decreases |commands|
  {
    hide Respond;
    if commands == [] {
      assert [args][1..] == [] && [] + [args] == [args];
    } else {
      assert (commands + [args])[0] == commands[0] && (commands + [args])[1..] == commands[1..] + [args];
      ServeAppend(w, Respond(w, s, commands[0]).state, commands[1..], args);
    }
  }

  class Commands {
    const world: World
    var commands: CommandTable
    const dbHashTable: HashTable
    const dbAvlTree: AvlTree

    ghost function Repr(): set<object>
      reads this, dbAvlTree
    {
      {this, dbHashTable} + dbAvlTree.Repr
    }

    ghost predicate Valid()
      reads this, dbHashTable, dbAvlTree, dbAvlTree.Repr
    {
      && GoodWorld(world)
      && commands == COMMANDS
      && dbHashTable.Valid() && dbHashTable.compile == world.compile && dbHashTable.walk == world.walk
      && dbAvlTree.Valid() && dbAvlTree.compile == world.compile && dbAvlTree.hash == world.hash
      && this !in dbAvlTree.Repr && dbHashTable !in dbAvlTree.Repr
    }

    ghost function State(): ServerState
      reads this, dbHashTable, dbAvlTree
    {
      ServerState(dbHashTable.table, dbHashTable.walks, dbAvlTree.contents)
    }

    constructor (world: World)
      requires GoodWorld(world)
      ensures Valid() && State() == EMPTY && this.world == world && fresh(Repr())
    {
      this.world := world;
      commands := map[];
      dbHashTable := new HashTable(world.compile, world.walk);
      dbAvlTree := new AvlTree(world.hash, world.compile);
      new;
      AddGenericCommands();
      AddDbCommands();
    }

    method AddGenericCommands()
      modifies this`commands
      ensures commands == WithGeneric(old(commands))
    {
      commands := commands["COMMANDS" := CallbackInfo(CommandsList, 0)];
      commands := commands["PING" := CallbackInfo(PingPong, 0)];
      commands := commands["VERSION" := CallbackInfo(Version, -1)];
    }

    method AddDbCommands()
      modifies this`commands
      ensures commands == WithDatabases(old(commands))
    {
      commands := commands["HGET" := CallbackInfo(HGet, 1)];
      commands := commands["HSET" := CallbackInfo(HSet, 2)];
      commands := commands["HDEL" := CallbackInfo(HDel, 1)];
      commands := commands["HFOR" := CallbackInfo(HFor, 1)];
      commands := commands["ATGET" := CallbackInfo(AtGet, 1)];
      commands := commands["ATSET" := CallbackInfo(AtSet, 2)];
      commands := commands["ATDEL" := CallbackInfo(AtDel, 1)];
      commands := commands["ATFOR" := CallbackInfo(AtFor, 1)];
    }

    method ListCommands() returns (reply: Bytes)
      ensures reply == Replies.ToReplyString(Lines(world.listing))
    {
      var asString: Bytes := "";
      var i := 0;
      while i < |world.listing|
        invariant i <= |world.listing| && asString == Lines(world.listing[..i])
      {
        assert world.listing[..i + 1][..i] == world.listing[..i];
        asString := asString + world.listing[i];
        asString := asString + "\n";
        i := i + 1;
      }
      assert world.listing[..i] == world.listing;
      return Replies.ToReplyString(asString);
    }

    /** The callback that find chose for these arguments, applied to them. */
    method Execute(arguments: seq<Bytes>) returns (reply: Bytes)
      requires Valid() && arguments != []
      modifies Repr()
      ensures Valid() && fresh(Repr() - old(Repr()))
      ensures Response(State(), reply) == old(Respond(world, State(), arguments))
    {
      FoundReadsInside(arguments);
      match Find(commands, arguments[0], |arguments| - 1)
      case NotImplemented => reply := NotImplementedReply(arguments[0]);
      case Malformed(input, expected) => reply := MalformedReply(arguments[0], input, expected);
      case Call(callback) => reply := RunFound(callback, arguments);
    }

    method RunFound(callback: CommandCallback, arguments: seq<Bytes>) returns (reply: Bytes)
      requires Valid() && LastIndexRead(callback) < |arguments|
      modifies Repr()
      ensures Valid() && fresh(Repr() - old(Repr()))
      ensures Response(State(), reply) == old(RunCallback(world, State(), callback, arguments))
    {
      hide TableApply, TreeApply, Lines;
      match callback
      case CommandsList => reply := ListCommands();
      case PingPong => reply := Replies.ToInlineReplyString("PONG");
      case Version =>
        var verbose := |arguments| == 2 && arguments[1] == "VERBOSE";
        reply := Replies.ToInlineReplyString(world.version(verbose));
      case HGet => reply := dbHashTable.Get(arguments);
      case HSet => reply := dbHashTable.Set(arguments);
      case HDel => reply := dbHashTable.Del(arguments);
      case HFor => reply := dbHashTable.ForEach(arguments);
      case AtGet => reply := dbAvlTree.Get(arguments);
      case AtSet => reply := dbAvlTree.Set(arguments);
      case AtDel => reply := dbAvlTree.Del(arguments);
      case AtFor => reply := dbAvlTree.ForEach(arguments);
    }
  }

  // ---- What the server's commands keep and answer ----

  predicate GoodState(w: World, s: ServerState) {
    Distinct(s.tree) && Keyed(w.hash, s.tree)
  }

  /** An unknown command or a wrong number of arguments changes neither database, whatever they hold,
      and is answered with an error. */
  lemma RefusedIsHarmless(w: World, s: ServerState, args: Command)
    requires GoodWorld(w)
    requires args[0] in COMMANDS ==>
               var n := COMMANDS[args[0]].numberOfArguments; 0 <= n != |args| - 1
    ensures Respond(w, s, args).state == s
    ensures |Respond(w, s, args).reply| > 5 && Respond(w, s, args).reply[..5] == "-ERR "
  {
    var r := Respond(w, s, args).reply;
    assert "-ERR "[0] == '-';
    assert r[..5] == "-ERR ";
  }

  /** Commands of one database never touch the other, and every command keeps the tree's invariant. */
  lemma RespondKeeps(w: World, s: ServerState, args: Command)
    requires GoodWorld(w) && GoodState(w, s)
    ensures var t := Respond(w, s, args).state;
            GoodState(w, t) && (t.tree == s.tree || (t.table == s.table && t.walks == s.walks))
  {
    FoundReadsInside(args);
    var bound := Find(COMMANDS, args[0], |args| - 1);
    if bound.Call? && LastIndexRead(bound.callback) >= 1 && !OnTable(bound.callback) {
      TreeApplyKeeps(w.hash, s.tree, OpOf(w, bound.callback, args));
    }
  }

  lemma {:induction false} LinesOf(names: seq<Bytes>, i: nat)
    requires i < |names|
    ensures exists a, b :: Lines(names) == a + names[i] + "\n" + b
    decreases |names|
  {
    var init, last := names[..|names| - 1], names[|names| - 1];
    if i == |names| - 1 {
      assert Lines(names) == Lines(init) + names[i] + "\n" + "";
    } else {
      LinesOf(init, i);
      var a, b :| Lines(init) == a + init[i] + "\n" + b;
      assert Lines(names) == a + names[i] + "\n" + (b + last + "\n");
    }
  }

  lemma CommandsReply(w: World, s: ServerState)
    requires GoodWorld(w)
    ensures Respond(w, s, ["COMMANDS"]) == Response(s, Replies.ToReplyString(Lines(w.listing)))
  {
    assert COMMANDS["COMMANDS"] == CallbackInfo(CommandsList, 0);
  }

  /** COMMANDS lists every command the server knows. */
  lemma CommandsListsAll(w: World, s: ServerState, name: Bytes)
    requires GoodWorld(w) && name in COMMANDS
    ensures exists a, b :: Respond(w, s, ["COMMANDS"]).reply == Replies.ToReplyString(a + name + "\n" + b)
  {
    hide Respond, Lines, Replies.ToReplyString;
    CommandsReply(w, s);
    assert name in COMMANDS.Keys;
    var i :| 0 <= i < |w.listing| && w.listing[i] == name;
    LinesOf(w.listing, i);
    var a, b :| Lines(w.listing) == a + w.listing[i] + "\n" + b;
    assert Respond(w, s, ["COMMANDS"]).reply == Replies.ToReplyString(a + name + "\n" + b);
  }

  // ---- What the database commands mean to a client ----

  predicate Listed(name: Bytes, callback: CommandCallback, arity: int) {
    name in COMMANDS && COMMANDS[name] == CallbackInfo(callback, arity)
  }

  lemma DatabaseEntries()
    ensures Listed("HGET", HGet, 1) && Listed("ATGET", AtGet, 1)
    ensures Listed("HSET", HSet, 2) && Listed("ATSET", AtSet, 2)
    ensures Listed("HDEL", HDel, 1) && Listed("ATDEL", AtDel, 1)
    ensures Listed("HFOR", HFor, 1) && Listed("ATFOR", AtFor, 1)
  {}

  /** The table filled by the constructor: these eleven names, each with its arity, and no other. */
  lemma CommandTableIs(name: Bytes)
    ensures name in COMMANDS <==>
            name in ["COMMANDS", "PING", "VERSION", "HGET", "HSET", "HDEL", "HFOR", "ATGET", "ATSET", "ATDEL", "ATFOR"]
    ensures name in COMMANDS ==>
              var info := COMMANDS[name];
              // a command takes what its callback reads, except VERSION, which takes anything
              info.numberOfArguments == if name == "VERSION" then -1 else LastIndexRead(info.callback)
    ensures Listed("COMMANDS", CommandsList, 0) && Listed("PING", PingPong, 0) && Listed("VERSION", Version, -1)
  {
    DatabaseEntries();
  }

  /** A database command of the right arity is the operation of its database. */
  lemma CommandIsOperation(w: World, s: ServerState, name: Bytes, args: Command)
    requires GoodWorld(w) && args[0] == name && name in COMMANDS
    requires |args| - 1 == COMMANDS[name].numberOfArguments >= 1
    ensures var callback := COMMANDS[name].callback;
            && 1 <= LastIndexRead(callback) == |args| - 1
            && Respond(w, s, args) == if OnTable(callback) then OnTableState(w, s, OpOf(w, callback, args))
                                      else OnTreeState(w, s, OpOf(w, callback, args))
  {}

  lemma TableCommand(w: World, s: ServerState, args: Command)
    requires GoodWorld(w) && |args| >= 2
    ensures |args| == 2 && args[0] == "HGET" ==> Respond(w, s, args) == OnTableState(w, s, Get(args[1]))
    ensures |args| == 3 && args[0] == "HSET" ==> Respond(w, s, args) == OnTableState(w, s, Set(args[1], args[2]))
    ensures |args| == 2 && args[0] == "HDEL" ==> Respond(w, s, args) == OnTableState(w, s, Del(args[1]))
    ensures |args| == 2 && args[0] == "HFOR" ==> Respond(w, s, args) == OnTableState(w, s, ForEach(w.compile(args[1])))
  {
    hide Respond, OnTableState, OnTreeState, COMMANDS;
    DatabaseEntries();
    if (|args| == 2 && args[0] in ["HGET", "HDEL", "HFOR"]) || (|args| == 3 && args[0] == "HSET") {
      CommandIsOperation(w, s, args[0], args);
    }
  }

  lemma TreeCommand(w: World, s: ServerState, args: Command)
    requires GoodWorld(w) && |args| >= 2
    ensures |args| == 2 && args[0] == "ATGET" ==> Respond(w, s, args) == OnTreeState(w, s, Get(args[1]))
    ensures |args| == 3 && args[0] == "ATSET" ==> Respond(w, s, args) == OnTreeState(w, s, Set(args[1], args[2]))
    ensures |args| == 2 && args[0] == "ATDEL" ==> Respond(w, s, args) == OnTreeState(w, s, Del(args[1]))
    ensures |args| == 2 && args[0] == "ATFOR" ==> Respond(w, s, args) == OnTreeState(w, s, ForEach(w.compile(args[1])))
  {
    hide Respond, OnTableState, OnTreeState, COMMANDS;
    DatabaseEntries();
    if (|args| == 2 && args[0] in ["ATGET", "ATDEL", "ATFOR"]) || (|args| == 3 && args[0] == "ATSET") {
      CommandIsOperation(w, s, args[0], args);
    }
  }

  /** HSET then HGET gives the value back; HDEL then HGET gives nil; neither disturbs another key. */
  lemma TableSetGetDel(w: World, s: ServerState, key: Bytes, value: Bytes, other: Bytes)
    requires GoodWorld(w)
    ensures var put := Respond(w, s, ["HSET", key, value]);
            var del := Respond(w, put.state, ["HDEL", key]);
            && put.reply == Replies.OK
            && Respond(w, put.state, ["HGET", key]).reply == Replies.ToReplyString(value)
            && del.reply == Replies.TRUE
            && Respond(w, del.state, ["HGET", key]).reply == Replies.NIL
            && (other != key ==>
                  Respond(w, put.state, ["HGET", other]).reply == Respond(w, s, ["HGET", other]).reply
                  == Respond(w, del.state, ["HGET", other]).reply)
  {
    hide Respond;
    TableCommand(w, s, ["HSET", key, value]);
    TableCommand(w, s, ["HGET", other]);
    var put := Respond(w, s, ["HSET", key, value]);
    TableCommand(w, put.state, ["HGET", key]);
    TableCommand(w, put.state, ["HGET", other]);
    TableCommand(w, put.state, ["HDEL", key]);
    var del := Respond(w, put.state, ["HDEL", key]);
    TableCommand(w, del.state, ["HGET", key]);
    TableCommand(w, del.state, ["HGET", other]);
  }

  /** The same of the tree, where another key is undisturbed if its hash is another one,
      and is served by this key's entry if it is not. */
  lemma TreeSetGetDel(w: World, s: ServerState, key: Bytes, value: Bytes, other: Bytes)
    requires GoodWorld(w) && GoodState(w, s)
    ensures var put := Respond(w, s, ["ATSET", key, value]);
            var del := Respond(w, put.state, ["ATDEL", key]);
            && put.reply == Replies.OK
            && Respond(w, put.state, ["ATGET", key]).reply == Replies.ToReplyString(value)
            && del.reply == Replies.TRUE
            && Respond(w, del.state, ["ATGET", key]).reply == Replies.NIL
            && (w.hash(other) != w.hash(key) ==>
                  Respond(w, put.state, ["ATGET", other]).reply == Respond(w, s, ["ATGET", other]).reply
                  == Respond(w, del.state, ["ATGET", other]).reply)
            && (w.hash(other) == w.hash(key) ==>
                  Respond(w, put.state, ["ATGET", other]).reply == Replies.ToReplyString(value)
                  && Respond(w, del.state, ["ATGET", other]).reply == Replies.NIL)
  {
    hide Respond, TreeApply, HashApply;
    TreeCommand(w, s, ["ATSET", key, value]);
    TreeCommand(w, s, ["ATGET", other]);
    TreeStep(w, s, Set(key, value));
    TreeStep(w, s, Get(other));
    var put := Respond(w, s, ["ATSET", key, value]);
    TreeCommand(w, put.state, ["ATGET", key]);
    TreeCommand(w, put.state, ["ATGET", other]);
    TreeCommand(w, put.state, ["ATDEL", key]);
    TreeStep(w, put.state, Get(key));
    TreeStep(w, put.state, Get(other));
    TreeStep(w, put.state, Del(key));
    var del := Respond(w, put.state, ["ATDEL", key]);
    TreeCommand(w, del.state, ["ATGET", key]);
    TreeCommand(w, del.state, ["ATGET", other]);
    TreeStep(w, del.state, Get(key));
    TreeStep(w, del.state, Get(other));
    HashSetGetDel(w.hash, ViewByHash(s.tree), key, value, other);
  }

  lemma TreeStep(w: World, s: ServerState, op: Op)
    requires GoodState(w, s) && !op.ForEach?
    ensures var r, o := OnTreeState(w, s, op), HashApply(w.hash, ViewByHash(s.tree), op);
            r.reply == o.reply && ViewByHash(r.state.tree) == o.store && GoodState(w, r.state)
  {
    hide TreeApply, HashApply, ViewByHash;
    TreeRefinesHashMap(w.hash, s.tree, op);
    TreeApplyKeeps(w.hash, s.tree, op);
  }

  lemma HashSetGetDel(hash: Hash, m: ByHash, key: Bytes, value: Bytes, other: Bytes)
    ensures var put := HashApply(hash, m, Set(key, value));
            var del := HashApply(hash, put.store, Del(key));
            && put.reply == Replies.OK && HashApply(hash, put.store, Get(key)).reply == Replies.ToReplyString(value)
            && del.reply == Replies.TRUE
            && HashApply(hash, del.store, Get(key)).reply == Replies.NIL
            && (hash(other) != hash(key) ==>
                  HashApply(hash, put.store, Get(other)).reply == HashApply(hash, m, Get(other)).reply
                  == HashApply(hash, del.store, Get(other)).reply)
            && (hash(other) == hash(key) ==>
                  HashApply(hash, put.store, Get(other)).reply == Replies.ToReplyString(value)
                  && HashApply(hash, del.store, Get(other)).reply == Replies.NIL)
  {}
}
