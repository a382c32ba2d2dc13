/** Many clients at once: from the bytes each connection brings to the replies it reads, with the
    commands of all of them interleaved step by step under the locks.
 */
module ManyClients {
  import opened ByteStrings
  import opened Streams
  import opened Stores
  import opened Dispatch
  import opened Locking
  import opened Linearizability
  import Sessions
  import EndToEnd

  /** The work of each connection: the commands its own bytes execute. */
  function Programs(streams: seq<seq<Bytes>>): seq<seq<Command>> {
    seq(|streams|, t requires 0 <= t < |streams| => FeedAll(START, streams[t]).executed)
  }

  /** Under every fair schedule every command that anybody's bytes execute is answered, and the log of
      the run is one order of them all, each client's own respected and nothing added, in which a server
      without any concurrency gives every client the replies it has read. */
  lemma ClientsServed(w: World, streams: seq<seq<Bytes>>, schedule: nat -> nat) returns (m: nat, log: seq<Event>)
    requires GoodWorld(w) && Fair(w, Initial(Programs(streams)), schedule)
    requires forall t: nat :: t < |streams| ==> Defined(START, streams[t])
    ensures var sys := At(w, Initial(Programs(streams)), schedule, m);
            && log == sys.log && |sys.threads| == |streams|
            && (forall e :: e in log ==> e.thread < |streams|)
            && forall t: nat :: t < |streams| ==>
                 && CommandsBy(log, t) == FeedAll(START, streams[t]).executed
                 && sys.threads[t].replies == RepliesOf(log, Serve(w, EMPTY, CommandsOf(log)).replies, t)
                 && |sys.threads[t].replies| == |FeedAll(START, streams[t]).executed|
  {
    hide At, Serve, RepliesOf, CommandsBy, FeedAll, Fair;
    m := EveryRunCompletes(w, Programs(streams), schedule);
    log := At(w, Initial(Programs(streams)), schedule, m).log;
  }

  /** The whole concurrent server is two plain maps: over tree keys that do not collide, all clients read
      replies that two maps may give to everybody's commands, one after the other. */
  lemma ClientsSeeTwoMaps(w: World, keys: set<Bytes>, streams: seq<seq<Bytes>>, schedule: nat -> nat)
    returns (m: nat, log: seq<Event>, replies: seq<Bytes>)
    requires GoodWorld(w) && Fair(w, Initial(Programs(streams)), schedule)
    requires InjectiveOn(w.hash, keys)
    requires forall t: nat :: t < |streams| ==> Defined(START, streams[t])
    requires forall t: nat, c | t < |streams| && c in Programs(streams)[t] :: EndToEnd.WithinKeys(w, keys, c)
    ensures EndToEnd.KvHistory(w, EndToEnd.Kv(map[], map[]), CommandsOf(log), replies) && |replies| == |log|
    ensures var sys := At(w, Initial(Programs(streams)), schedule, m);
            && log == sys.log && |sys.threads| == |streams|
            && (forall e :: e in log ==> e.thread < |streams|)
            && forall t: nat :: t < |streams| ==>
                 && CommandsBy(log, t) == FeedAll(START, streams[t]).executed
                 && sys.threads[t].replies == RepliesOf(log, replies, t)
  {
    hide At, Serve, RepliesOf, CommandsBy, FeedAll, Fair, EndToEnd.KvHistory, EndToEnd.WithinKeys, InjectiveOn;
    m := EveryRunCompletes(w, Programs(streams), schedule);
    log := At(w, Initial(Programs(streams)), schedule, m).log;
    replies := Serve(w, EMPTY, CommandsOf(log)).replies;
    forall i | 0 <= i < |log| ensures EndToEnd.WithinKeys(w, keys, CommandsOf(log)[i]) {
      assert log[i] in log;
      LoggedIsProgrammed(log, i);
      assert log[i].command in Programs(streams)[log[i].thread];
    }
    EndToEnd.EmptyMaps(w, keys);
    EndToEnd.ServeIsHistory(w, keys, EMPTY, EndToEnd.Kv(map[], map[]), CommandsOf(log));
  }

  // ---- A client whose keys nobody else uses ----

  /** Commands over these keys only; no foreach, which sees everybody's. */
  predicate Private(w: World, mine: set<Bytes>, args: Command) {
    match TaskOf(w, args)
    case NoLock(_) => true
    case On(_, op) => !op.ForEach? && KeysOf(op) <= mine
  }

  /** Commands over other keys, and in the tree over other hashes. */
  predicate Foreign(w: World, mine: set<Bytes>, args: Command) {
    match TaskOf(w, args)
    case NoLock(_) => true
    case On(TableDb, op) => !op.ForEach? && KeysOf(op) !! mine
    case On(TreeDb, op) => !op.ForEach? && forall k, key :: k in KeysOf(op) && key in mine ==> w.hash(k) != w.hash(key)
  }

  /** Client t uses only these keys, and nobody else uses them. */
  predicate KeepApart(w: World, mine: set<Bytes>, programs: seq<seq<Command>>, t: nat) {
    forall u: nat, c | u < |programs| && c in programs[u] ::
      if u == t then Private(w, mine, c) else Foreign(w, mine, c)
  }

  predicate SameAt<K(==), V(==)>(a: map<K, V>, b: map<K, V>, k: K) {
    (k in a <==> k in b) && (k in a ==> a[k] == b[k])
  }

  /** The two states hold the same under these keys. */
  ghost predicate Alike(w: World, mine: set<Bytes>, a: ServerState, b: ServerState) {
    && (forall key :: key in mine ==> SameAt(a.table, b.table, key))
    && (forall key :: key in mine ==> SameAt(ViewByHash(a.tree), ViewByHash(b.tree), w.hash(key)))
  }

  /** The client's own commands cannot tell the two states apart. */
  lemma PrivateStep(w: World, mine: set<Bytes>, a: ServerState, b: ServerState, args: Command)
    requires GoodWorld(w) && GoodState(w, a) && GoodState(w, b)
    requires Alike(w, mine, a, b) && Private(w, mine, args)
    ensures Respond(w, a, args).reply == Respond(w, b, args).reply
    ensures Alike(w, mine, Respond(w, a, args).state, Respond(w, b, args).state)
  {
    hide Respond, TaskOf, TreeApply, ViewByHash;
    TaskMeaning(w, a, args);
    TaskMeaning(w, b, args);
    match TaskOf(w, args)
    case NoLock(_) =>
    case On(TableDb, op) =>
    case On(TreeDb, op) =>
      TreeRefinesHashMap(w.hash, a.tree, op);
      TreeRefinesHashMap(w.hash, b.tree, op);
  }

  /** Nobody else's do anything to what it sees. */
  lemma ForeignStep(w: World, mine: set<Bytes>, s: ServerState, args: Command)
    requires GoodWorld(w) && GoodState(w, s) && Foreign(w, mine, args)
    ensures Alike(w, mine, Respond(w, s, args).state, s)
  {
    hide Respond, TaskOf, TreeApply, ViewByHash;
    TaskMeaning(w, s, args);
    match TaskOf(w, args)
    case NoLock(_) =>
    case On(TableDb, op) =>
    case On(TreeDb, op) => TreeRefinesHashMap(w.hash, s.tree, op);
  }

  /** The log holds the client's private commands and other people's foreign ones. */
  predicate Separate(w: World, mine: set<Bytes>, log: seq<Event>, t: nat) {
    forall i :: 0 <= i < |log| ==>
      if log[i].thread == t then Private(w, mine, log[i].command) else Foreign(w, mine, log[i].command)
  }

  /** In a sequential run such a client is answered as if the others did not exist. */
  lemma {:induction false} Undisturbed(w: World, mine: set<Bytes>, log: seq<Event>, t: nat)
    requires GoodWorld(w) && Separate(w, mine, log, t)
    ensures var all, own := Sequential(w, log), Serve(w, EMPTY, CommandsBy(log, t));
            RepliesOf(log, all.replies, t) == own.replies && Alike(w, mine, all.state, own.state)
  {
    hide Serve, Respond, Private, Foreign, Alike;
    if log == [] {
      NothingYet(w, mine);
    } else {
      var n := |log| - 1;
      var init, e := log[..n], log[n];
      assert log == init + [e];
      Undisturbed(w, mine, init, t);
      var all, own := Sequential(w, init), Serve(w, EMPTY, CommandsBy(init, t));
      var reply := Respond(w, all.state, e.command).reply;
      LogOne(w, init, e);
      LogOneBy(init, all.replies, e, reply, t);
      SequentialGood(w, init);
      if e.thread == t {
        ServeKeeps(w, EMPTY, CommandsBy(init, t));
        ServeAppend(w, EMPTY, CommandsBy(init, t), e.command);
        PrivateStep(w, mine, all.state, own.state, e.command);
      } else {
        ForeignStep(w, mine, all.state, e.command);
        AlikeToo(w, mine, Respond(w, all.state, e.command).state, all.state, own.state);
        assert CommandsBy(init, t) + [] == CommandsBy(init, t);
        assert RepliesOf(init, all.replies, t) + [] == RepliesOf(init, all.replies, t);
      }
    }
  }

  lemma NothingYet(w: World, mine: set<Bytes>)
    requires GoodWorld(w)
    ensures Sequential(w, []) == Serve(w, EMPTY, []) == Served(EMPTY, []) && Alike(w, mine, EMPTY, EMPTY)
  {
    assert CommandsOf([]) == [];
  }

  lemma AlikeToo(w: World, mine: set<Bytes>, a: ServerState, b: ServerState, c: ServerState)
    requires Alike(w, mine, a, b) && Alike(w, mine, b, c)
    ensures Alike(w, mine, a, c)
  {
    hide ViewByHash;
    forall key | key in mine
      ensures SameAt(a.table, c.table, key) && SameAt(ViewByHash(a.tree), ViewByHash(c.tree), w.hash(key))
    {
      assert SameAt(a.table, b.table, key) && SameAt(b.table, c.table, key);
      assert SameAt(ViewByHash(a.tree), ViewByHash(b.tree), w.hash(key));
      assert SameAt(ViewByHash(b.tree), ViewByHash(c.tree), w.hash(key));
    }
  }

  /** Serving fewer commands gives the first of the replies. */
  lemma {:induction false} ServePrefix(w: World, s: ServerState, some: seq<Command>, all: seq<Command>)
    requires GoodWorld(w) && some <= all
    ensures Serve(w, s, some).replies <= Serve(w, s, all).replies
    decreases |some|
  {
    hide Respond;
    if some != [] {
      assert some[0] == all[0] && some[1..] <= all[1..];
      ServePrefix(w, Respond(w, s, some[0]).state, some[1..], all[1..]);
    }
  }

  /** Where a logged command comes from. */
  lemma {:induction false} LoggedIsProgrammed(log: seq<Event>, i: nat)
    requires i < |log|
    ensures log[i].command in CommandsBy(log, log[i].thread)
  {
    var n := |log| - 1;
    if i < n { LoggedIsProgrammed(log[..n], i); }
  }

  lemma AllSeparate(w: World, mine: set<Bytes>, programs: seq<seq<Command>>, sys: Sys, t: nat)
    requires GoodWorld(w) && |sys.threads| == |programs| && Explains(w, programs, sys)
    requires KeepApart(w, mine, programs, t)
    ensures Separate(w, mine, sys.log, t)
  {
    hide Private, Foreign, Sequential, RepliesOf, CommandsBy;
    var r := Sequential(w, sys.log);
    forall i | 0 <= i < |sys.log|
      ensures var e := sys.log[i]; if e.thread == t then Private(w, mine, e.command) else Foreign(w, mine, e.command)
    {
      var e := sys.log[i];
      assert e in sys.log;
      LoggedIsProgrammed(sys.log, i);
      assert Matches(programs[e.thread], sys.threads[e.thread], RepliesOf(sys.log, r.replies, e.thread),
                     CommandsBy(sys.log, e.thread));
      assert e.command in programs[e.thread];
    }
  }

  /** What a client reads from a server all its own. */
  lemma OwnServer(w: World, chunks: seq<Bytes>)
    requires GoodWorld(w) && Defined(START, chunks)
    ensures Sessions.Drive(w, EndToEnd.Waiting(EMPTY), chunks).sent
         == Serve(w, EMPTY, FeedAll(START, chunks).executed).replies
  {
    hide FeedAll, Defined, Sessions.Drive, Serve;
    EndToEnd.DriveServes(w, EndToEnd.Waiting(EMPTY), chunks);
    var own := Serve(w, EMPTY, FeedAll(START, chunks).executed).replies;
    assert [] + own == own;
  }

  /** Isolation.  However the connections are interleaved, at any moment a client that alone uses its
      keys has read a beginning of what it would read from a server all its own. */
  lemma Isolation(w: World, mine: set<Bytes>, streams: seq<seq<Bytes>>, schedule: nat -> nat, n: nat, t: nat)
    requires GoodWorld(w) && t < |streams| && forall u: nat :: u < |streams| ==> Defined(START, streams[u])
    requires KeepApart(w, mine, Programs(streams), t)
    ensures var sys := At(w, Initial(Programs(streams)), schedule, n);
            |sys.threads| == |streams| &&
            sys.threads[t].replies <= Sessions.Drive(w, EndToEnd.Waiting(EMPTY), streams[t]).sent
  {
    hide At, KeepApart, FeedAll, Defined, Alike, Sessions.Drive;
    var programs := Programs(streams);
    var sys := At(w, Initial(programs), schedule, n);
    Linearizable(w, programs, schedule, n);
    var log, r := sys.log, Sequential(w, sys.log);
    assert Matches(programs[t], sys.threads[t], RepliesOf(log, r.replies, t), CommandsBy(log, t));
    AllSeparate(w, mine, programs, sys, t);
    Undisturbed(w, mine, log, t);
    hide Serve;
    ServePrefix(w, EMPTY, CommandsBy(log, t), programs[t]);
    OwnServer(w, streams[t]);
  }

  /** ... and under every fair schedule it comes to read all of it. */
  lemma IsolatedClientServed(w: World, mine: set<Bytes>, streams: seq<seq<Bytes>>, schedule: nat -> nat, t: nat)
    returns (m: nat)
    requires GoodWorld(w) && t < |streams| && forall u: nat :: u < |streams| ==> Defined(START, streams[u])
    requires KeepApart(w, mine, Programs(streams), t)
    requires Fair(w, Initial(Programs(streams)), schedule)
    ensures var sys := At(w, Initial(Programs(streams)), schedule, m);
            |sys.threads| == |streams| &&
            sys.threads[t].replies == Sessions.Drive(w, EndToEnd.Waiting(EMPTY), streams[t]).sent
  {
    hide At, Serve, KeepApart, FeedAll, Defined, Sessions.Drive, Fair;
    var log;
    m, log := ClientsServed(w, streams, schedule);
    Isolation(w, mine, streams, schedule, m, t);
    OwnServer(w, streams[t]);
  }
}
