/** Every step of every thread keeps the invariant of the lock protocol: one lemma for each kind of step. */
module LockSteps {
  import opened ByteStrings
  import opened Stores
  import opened Bodies
  import opened Dispatch
  import opened Locking

  /** The lock of db follows t from one place to another, if it was free for that. */
  lemma LockFollows(w: World, sys: Sys, next: Sys, db: DbName, t: nat)
    requires LockOk(w, sys, db) && t < |sys.threads| == |next.threads|
    requires forall u: nat :: u < |sys.threads| && u != t ==> next.threads[u] == sys.threads[u]
    requires var old', new' := Of(sys, db).lock, Of(next, db).lock;
             && new'.shared == (if Reads(w, next, db, t) then old'.shared + {t} else old'.shared - {t})
             && new'.exclusive == (if Writes(w, next, db, t) then Some(t)
                                   else if old'.exclusive == Some(t) then None else old'.exclusive)
             && new'.upgrade == (if Upgrades(w, next, db, t) then Some(t)
                                 else if old'.upgrade == Some(t) then None else old'.upgrade)
             && (Writes(w, next, db, t) ==> old'.exclusive.None? || old'.exclusive == Some(t))
             && (Upgrades(w, next, db, t) ==> old'.upgrade.None? || old'.upgrade == Some(t))
             && (new'.exclusive.Some? ==> new'.shared == {} && new'.upgrade.None?)
    ensures LockOk(w, next, db)
  {
    hide TaskOf;
    forall u: nat | u != t
      ensures Reads(w, next, db, u) == Reads(w, sys, db, u)
      ensures Writes(w, next, db, u) == Writes(w, sys, db, u)
      ensures Upgrades(w, next, db, u) == Upgrades(w, sys, db, u)
    {}
  }

  function Other(db: DbName): DbName {
    if db.TableDb? then TreeDb else TableDb
  }

  /** The database a step does not touch. */
  lemma OtherDb(w: World, sys: Sys, next: Sys, db: DbName, t: nat, target: Store)
    requires LockOk(w, sys, db) && StoreOk(w, sys, db, target) && Of(next, db) == Of(sys, db)
    requires t < |sys.threads| == |next.threads| && sys.threads[t].todo != []
    requires forall u: nat :: u < |sys.threads| && u != t ==> next.threads[u] == sys.threads[u]
    requires next.threads[t].pc.Idle? || next.threads[t].todo == sys.threads[t].todo
    requires TaskAt(w, sys.threads[t]).On? ==> TaskAt(w, sys.threads[t]).db != db
    requires TaskAt(w, sys.threads[t]).NoLock? ==> next.threads[t].pc.Idle?
    ensures LockOk(w, next, db) && StoreOk(w, next, db, target)
  {
    hide TaskOf, RunBody;
    OtherLock(w, sys, next, db, t);
    OtherStore(w, sys, next, db, t, target);
  }

  /** The invariant, with the two databases named by the one a step is about. */
  lemma InvFor(w: World, programs: seq<seq<Command>>, sys: Sys, db: DbName)
    requires GoodWorld(w) && |sys.threads| == |programs|
    requires LockOk(w, sys, db) && LockOk(w, sys, Other(db))
    requires var r := Sequential(w, sys.log);
             && StoreOk(w, sys, db, StoreIn(r.state, db)) && StoreOk(w, sys, Other(db), StoreIn(r.state, Other(db)))
             && sys.walks == r.state.walks && ThreadsOk(w, programs, sys, r.replies)
    ensures Inv(w, programs, sys)
  {
    hide Sequential, LockOk, StoreOk, ThreadsOk, StoreIn;
  }

  // ---- Answers without a lock ----

  /** A command that needs no database is answered at once, whatever the others are doing. */
  lemma Answered(w: World, programs: seq<seq<Command>>, sys: Sys, t: nat)
    requires Inv(w, programs, sys) && Enabled(w, sys, t) && TaskAt(w, sys.threads[t]).NoLock?
    ensures Inv(w, programs, Step(w, sys, t))
  {
    hide TaskOf, RunBody, RepliesOf, CommandsBy, Sequential, Respond, LockOk, StoreOk;
    var th, r, next := sys.threads[t], Sequential(w, sys.log), Step(w, sys, t);
    var e, reply := Event(t, th.todo[0]), TaskAt(w, th).reply;
    LogOne(w, sys.log, e);
    TaskMeaning(w, r.state, th.todo[0]);
    OtherDb(w, sys, next, TableDb, t, StoreIn(r.state, TableDb));
    OtherDb(w, sys, next, TreeDb, t, StoreIn(r.state, TreeDb));
    forall u: nat | u < |programs|
      ensures ThreadOk(w, programs[u], next.threads[u], u, next.table.store, next.tree.store,
                       next.log, r.replies + [reply])
    {
      if u != t {
        OthersLog(w, programs[u], sys.threads[u], u, sys.table.store, sys.tree.store, sys.log, r.replies, e, reply);
      } else {
        LogOneBy(sys.log, r.replies, e, reply, t);
        assert CommandsBy(sys.log, t) + [th.todo[0]] + th.todo[1..] == CommandsBy(sys.log, t) + th.todo;
      }
    }
  }

  // ---- Grants ----

  /** What a grant does to the log and to the threads, when nobody is writing. */
  lemma Granted(w: World, programs: seq<seq<Command>>, sys: Sys, t: nat, db: DbName, op: Op, lock: Lock)
    requires Inv(w, programs, sys) && t < |programs| && sys.threads[t].todo != []
    requires sys.threads[t].pc.Idle? || sys.threads[t].pc.Waiting?
    requires TaskAt(w, sys.threads[t]) == On(db, op) && Of(sys, db).lock.exclusive.None?
    ensures var next := Grant(sys, t, db, op, lock);
            var r, s := Sequential(w, next.log), Sequential(w, sys.log);
            && RunBody(EnvOf(w), Begin(op, sys.walks), Of(sys, db).store).store == StoreIn(r.state, db)
            && (op.Get? ==> StoreIn(r.state, db) == StoreIn(s.state, db))
            && StoreIn(r.state, Other(db)) == StoreIn(s.state, Other(db))
            && next.walks == r.state.walks
            && ThreadsOk(w, programs, next, r.replies)
  {
    hide TaskOf, RunBody, RepliesOf, CommandsBy, Sequential, Respond, LockOk, Apply, StoreIn, Consistent;
    var th, s, next := sys.threads[t], Sequential(w, sys.log), Grant(sys, t, db, op, lock);
    var e, store := Event(t, th.todo[0]), Of(sys, db).store;
    var a := Respond(w, s.state, th.todo[0]);
    assert StoreOk(w, sys, db, StoreIn(s.state, db));
    LogOne(w, sys.log, e);
    BodyAnswers(w, s.state, th.todo[0], db, op, sys.log);
    forall u: nat | u < |programs|
      ensures ThreadOk(w, programs[u], next.threads[u], u, next.table.store, next.tree.store,
                       next.log, s.replies + [a.reply])
    {
      if u != t {
        OthersLog(w, programs[u], sys.threads[u], u, sys.table.store, sys.tree.store, sys.log, s.replies, e, a.reply);
      } else {
        LogOneBy(sys.log, s.replies, e, a.reply, t);
        assert ThreadOk(w, programs[t], th, t, sys.table.store, sys.tree.store, sys.log, s.replies);
        assert CommandsBy(sys.log, t) + [th.todo[0]] + th.todo[1..] == CommandsBy(sys.log, t) + th.todo;
      }
    }
  }

  /** A body begun on the store of the sequential run ends where the sequential run goes on. */
  lemma BodyAnswers(w: World, s: ServerState, args: Command, db: DbName, op: Op, log: seq<Event>)
    requires GoodWorld(w) && TaskOf(w, args) == On(db, op) && s == Sequential(w, log).state
    ensures var r := Respond(w, s, args);
            && RunBody(EnvOf(w), Begin(op, s.walks), StoreIn(s, db)) == Outcome(StoreIn(r.state, db), r.reply)
            && r.state.walks == s.walks + WalksOf(db, op)
            && (op.Get? ==> StoreIn(r.state, db) == StoreIn(s, db))
            && StoreIn(r.state, Other(db)) == StoreIn(s, Other(db))
  {
    hide TaskOf, RunBody, Sequential, Respond;
    SequentialGood(w, log);
    assert Consistent(EnvOf(w), StoreIn(s, db));
    BodyIsOperation(EnvOf(w), StoreIn(s, db), op, s.walks);
    ApplyIsRespond(w, s, args, db, op);
  }

  lemma GrantReader(w: World, programs: seq<seq<Command>>, sys: Sys, t: nat, db: DbName, op: Op)
    requires Inv(w, programs, sys) && Enabled(w, sys, t) && TaskAt(w, sys.threads[t]) == On(db, op)
    requires sys.threads[t].pc.Idle? && op.Get?
    ensures Inv(w, programs, Step(w, sys, t))
  {
    hide TaskOf, RunBody, Sequential, Respond, ThreadsOk, StoreIn;
    var next, s := Step(w, sys, t), Sequential(w, sys.log);
    Granted(w, programs, sys, t, db, op, Of(next, db).lock);
    assert !Upgrades(w, sys, db, t) && !Writes(w, sys, db, t);
    LockFollows(w, sys, next, db, t);
    OtherDb(w, sys, next, Other(db), t, StoreIn(s.state, Other(db)));
    InvFor(w, programs, next, db);
  }

  lemma GrantWriter(w: World, programs: seq<seq<Command>>, sys: Sys, t: nat, db: DbName, op: Op)
    requires Inv(w, programs, sys) && Enabled(w, sys, t) && TaskAt(w, sys.threads[t]) == On(db, op)
    requires sys.threads[t].pc.Waiting?
    ensures Inv(w, programs, Step(w, sys, t))
  {
    hide TaskOf, RunBody, Sequential, Respond, RepliesOf, CommandsBy, StoreIn;
    var next, s := Step(w, sys, t), Sequential(w, sys.log);
    assert Upgrades(w, sys, db, t) && Of(sys, db).lock.upgrade == Some(t);
    assert ThreadOk(w, programs[t], sys.threads[t], t, sys.table.store, sys.tree.store, sys.log, s.replies);
    Granted(w, programs, sys, t, db, op, Of(next, db).lock);
    hide ThreadsOk, ThreadOk;
    assert Writes(w, next, db, t);
    LockFollows(w, sys, next, db, t);
    OtherDb(w, sys, next, Other(db), t, StoreIn(s.state, Other(db)));
    InvFor(w, programs, next, db);
  }

  // ---- Steps that do not touch the log ----

  /** The threads, when t moves on by itself and the log stays. */
  lemma ThreadsKept(w: World, programs: seq<seq<Command>>, sys: Sys, next: Sys, t: nat, db: DbName, replies: seq<Bytes>)
    requires |sys.threads| == |programs| == |next.threads| && |sys.log| == |replies| && next.log == sys.log
    requires ThreadsOk(w, programs, sys, replies) && t < |programs|
    requires forall u: nat :: u < |programs| && u != t ==> next.threads[u] == sys.threads[u]
    requires Of(next, Other(db)).store == Of(sys, Other(db)).store
    requires Of(next, db).store == Of(sys, db).store ||
             forall u: nat :: u < |programs| && u != t ==> !Reads(w, sys, db, u) && !Writes(w, sys, db, u)
    requires ThreadOk(w, programs[t], next.threads[t], t, next.table.store, next.tree.store, sys.log, replies)
    ensures ThreadsOk(w, programs, next, replies)
  {
    hide TaskOf, RunBody, RepliesOf, CommandsBy;
    forall u: nat | u < |programs|
      ensures ThreadOk(w, programs[u], next.threads[u], u, next.table.store, next.tree.store, next.log, replies)
    {
      if u != t {
        assert Of(next, db).store == Of(sys, db).store || (!Reads(w, sys, db, u) && !Writes(w, sys, db, u));
        OthersStore(w, programs[u], sys.threads[u], u, sys.table.store, sys.tree.store,
                    next.table.store, next.tree.store, sys.log, replies);
      }
    }
  }

  lemma TakeUpgrade(w: World, programs: seq<seq<Command>>, sys: Sys, t: nat, db: DbName, op: Op)
    requires Inv(w, programs, sys) && Enabled(w, sys, t) && TaskAt(w, sys.threads[t]) == On(db, op)
    requires sys.threads[t].pc.Idle? && !op.Get?
    ensures Inv(w, programs, Step(w, sys, t))
  {
    hide TaskOf, RunBody, Sequential, RepliesOf, CommandsBy, StoreIn;
    var next, r := Step(w, sys, t), Sequential(w, sys.log);
    assert ThreadOk(w, programs[t], sys.threads[t], t, sys.table.store, sys.tree.store, sys.log, r.replies);
    ThreadsKept(w, programs, sys, next, t, db, r.replies);
    assert Upgrades(w, next, db, t) && !Reads(w, sys, db, t) && !Writes(w, sys, db, t);
    LockFollows(w, sys, next, db, t);
    OtherDb(w, sys, next, Other(db), t, StoreIn(r.state, Other(db)));
    InvFor(w, programs, next, db);
  }

  lemma ReadStep(w: World, programs: seq<seq<Command>>, sys: Sys, t: nat, db: DbName, op: Op)
    requires Inv(w, programs, sys) && Enabled(w, sys, t) && TaskAt(w, sys.threads[t]) == On(db, op)
    requires sys.threads[t].pc.Running? && !sys.threads[t].pc.local.Done? && op.Get?
    ensures Inv(w, programs, Step(w, sys, t))
  {
    hide TaskOf, RunBody, BodyStep, Sequential, RepliesOf, CommandsBy, StoreIn;
    var th, next, r := sys.threads[t], Step(w, sys, t), Sequential(w, sys.log);
    assert ThreadOk(w, programs[t], th, t, sys.table.store, sys.tree.store, sys.log, r.replies);
    assert Reads(w, sys, db, t) && t in Of(sys, db).lock.shared;
    ReadingStep(EnvOf(w), th.pc.local, Of(sys, db).store);
    RunUnfold(EnvOf(w), th.pc.local, Of(sys, db).store);
    ThreadsKept(w, programs, sys, next, t, db, r.replies);
    assert Reads(w, next, db, t);
    LockFollows(w, sys, next, db, t);
    OtherDb(w, sys, next, Other(db), t, StoreIn(r.state, Other(db)));
    InvFor(w, programs, next, db);
  }

  /** A step inside a set, a del or a foreach disturbs nobody, for nobody else is inside. */
  lemma WriteStep(w: World, programs: seq<seq<Command>>, sys: Sys, t: nat, db: DbName, op: Op)
    requires Inv(w, programs, sys) && Enabled(w, sys, t) && TaskAt(w, sys.threads[t]) == On(db, op)
    requires sys.threads[t].pc.Running? && !sys.threads[t].pc.local.Done? && !op.Get?
    ensures Inv(w, programs, Step(w, sys, t))
  {
    hide TaskOf, RunBody, BodyStep, Sequential, RepliesOf, CommandsBy, StoreIn;
    var th, next, r := sys.threads[t], Step(w, sys, t), Sequential(w, sys.log);
    assert ThreadOk(w, programs[t], th, t, sys.table.store, sys.tree.store, sys.log, r.replies);
    assert Writes(w, sys, db, t) && Of(sys, db).lock.exclusive == Some(t);
    assert forall u: nat :: u != t ==> !Reads(w, sys, db, u) && !Writes(w, sys, db, u);
    RunUnfold(EnvOf(w), th.pc.local, Of(sys, db).store);
    ThreadsKept(w, programs, sys, next, t, db, r.replies);
    assert Writes(w, next, db, t);
    LockFollows(w, sys, next, db, t);
    OtherDb(w, sys, next, Other(db), t, StoreIn(r.state, Other(db)));
    InvFor(w, programs, next, db);
  }

  /** Unlocking: from a finished body, or from the upgrade a writer fell back to. */
  lemma Unlock(w: World, programs: seq<seq<Command>>, sys: Sys, t: nat, db: DbName, op: Op)
    requires Inv(w, programs, sys) && Enabled(w, sys, t) && TaskAt(w, sys.threads[t]) == On(db, op)
    requires sys.threads[t].pc.Downgraded? || (sys.threads[t].pc.Running? && sys.threads[t].pc.local.Done?)
    ensures Inv(w, programs, Step(w, sys, t))
  {
    hide TaskOf, RunBody, BodyStep, Sequential, RepliesOf, CommandsBy, StoreIn;
    var th, next, r := sys.threads[t], Step(w, sys, t), Sequential(w, sys.log);
    assert ThreadOk(w, programs[t], th, t, sys.table.store, sys.tree.store, sys.log, r.replies);
    if th.pc.Running? { RunDone(EnvOf(w), th.pc.local.reply, Of(sys, db).store); }
    ThreadsKept(w, programs, sys, next, t, db, r.replies);
    hide ThreadsOk, ThreadOk;
    UnlockLock(w, sys, t, db, op);
    OtherDb(w, sys, next, Other(db), t, StoreIn(r.state, Other(db)));
    InvFor(w, programs, next, db);
  }

  lemma UnlockLock(w: World, sys: Sys, t: nat, db: DbName, op: Op)
    requires LockOk(w, sys, db) && Enabled(w, sys, t) && TaskAt(w, sys.threads[t]) == On(db, op)
    requires sys.threads[t].pc.Downgraded? || (sys.threads[t].pc.Running? && sys.threads[t].pc.local.Done?)
    ensures LockOk(w, Step(w, sys, t), db)
    ensures forall target :: StoreOk(w, sys, db, target) ==> StoreOk(w, Step(w, sys, t), db, target)
  {
    hide TaskOf, BodyStep;
    var th, next := sys.threads[t], Step(w, sys, t);
    if th.pc.Running? { RunDone(EnvOf(w), th.pc.local.reply, Of(sys, db).store); }
    hide RunBody;
    assert Reads(w, sys, db, t) || Writes(w, sys, db, t) || Upgrades(w, sys, db, t);
    LockFollows(w, sys, next, db, t);
  }

  /** Every step of every thread keeps the invariant. */
  lemma StepInv(w: World, programs: seq<seq<Command>>, sys: Sys, t: nat)
    requires Inv(w, programs, sys) && Enabled(w, sys, t)
    ensures Inv(w, programs, Step(w, sys, t))
  {
    hide Inv, Step, BodyStep, TaskOf;
    var pc := sys.threads[t].pc;
    match TaskAt(w, sys.threads[t])
    case NoLock(_) => Answered(w, programs, sys, t);
    case On(db, op) =>
      if pc.Idle? {
        if op.Get? { GrantReader(w, programs, sys, t, db, op); } else { TakeUpgrade(w, programs, sys, t, db, op); }
      } else if pc.Waiting? {
        GrantWriter(w, programs, sys, t, db, op);
      } else if pc.Running? && !pc.local.Done? {
        if op.Get? { ReadStep(w, programs, sys, t, db, op); } else { WriteStep(w, programs, sys, t, db, op); }
      } else {
        Unlock(w, programs, sys, t, db, op);
      }
  }

  // ---- How the code uses its locks ----

  /** One call of boost::shared_mutex by thread t, when it may return; or none. */
  predicate LockMove(a: Lock, b: Lock, t: nat) {
    || b == a
    || (a.exclusive.None? && t !in a.shared && b == Lock(a.shared + {t}, a.upgrade, None))           // lock_shared
    || (t in a.shared && b == Lock(a.shared - {t}, a.upgrade, a.exclusive))                          // unlock_shared
    || (a.exclusive.None? && a.upgrade.None? && b == Lock(a.shared, Some(t), None))                  // lock_upgrade
    || (a.upgrade == Some(t) && a.shared == {} && b == Lock({}, None, Some(t)))           // unlock_upgrade_and_lock
    || (a.exclusive == Some(t) && b == Lock({}, Some(t), None))                           // unlock_and_lock_upgrade
    || (a.upgrade == Some(t) && b == Lock(a.shared, None, a.exclusive))                              // unlock_upgrade
  }

  /** Every step is at most one such call, on one of the two locks: in particular exclusive access is
      only ever given up for upgrade. */
  lemma StepIsLockMove(w: World, programs: seq<seq<Command>>, sys: Sys, t: nat)
    requires Inv(w, programs, sys) && Enabled(w, sys, t)
    ensures var next := Step(w, sys, t);
            && LockMove(sys.table.lock, next.table.lock, t) && LockMove(sys.tree.lock, next.tree.lock, t)
            && (next.table.lock == sys.table.lock || next.tree.lock == sys.tree.lock)
  {
    hide Sequential, StoreOk, RunBody, RepliesOf, CommandsBy, TaskOf, BodyStep;
    var th, r := sys.threads[t], Sequential(w, sys.log);
    assert ThreadOk(w, programs[t], th, t, sys.table.store, sys.tree.store, sys.log, r.replies);
    hide ThreadsOk;
    if TaskAt(w, th).On? {
      PlaceAtLock(w, sys, t, TaskAt(w, th).db);
    }
  }

  /** What the lock of a database says of a thread that is after it. */
  lemma PlaceAtLock(w: World, sys: Sys, t: nat, db: DbName)
    requires LockOk(w, sys, db) && t < |sys.threads| && sys.threads[t].todo != []
    requires TaskAt(w, sys.threads[t]).On? && TaskAt(w, sys.threads[t]).db == db
    ensures var th, lock := sys.threads[t], Of(sys, db).lock;
            && (t in lock.shared <==> th.pc.Running? && TaskAt(w, th).op.Get?)
            && (lock.exclusive == Some(t) <==> th.pc.Running? && !TaskAt(w, th).op.Get?)
            && (lock.upgrade == Some(t) <==> th.pc.Waiting? || th.pc.Downgraded?)
            && (lock.exclusive.Some? ==> lock.shared == {} && lock.upgrade.None?)
  {
    hide TaskOf;
    assert t in Of(sys, db).lock.shared <==> Reads(w, sys, db, t);
    assert Of(sys, db).lock.exclusive == Some(t) <==> Writes(w, sys, db, t);
    assert Of(sys, db).lock.upgrade == Some(t) <==> Upgrades(w, sys, db, t);
  }

  /** Exactly what a client waits for: a get for the writer that is inside; another command first for
      the writer and for whoever holds upgrade, and then for the readers to leave. */
  lemma BlockedExact(w: World, programs: seq<seq<Command>>, sys: Sys, t: nat, db: DbName, op: Op)
    requires Inv(w, programs, sys) && t < |sys.threads| && sys.threads[t].todo != []
    requires TaskAt(w, sys.threads[t]) == On(db, op)
    ensures var pc := sys.threads[t].pc;
            !Enabled(w, sys, t) <==>
              || (pc.Idle? && exists u: nat :: Writes(w, sys, db, u))
              || (pc.Idle? && !op.Get? && exists u: nat :: Upgrades(w, sys, db, u))
              || (pc.Waiting? && exists u: nat :: Reads(w, sys, db, u))
  {
    hide Sequential, StoreOk, ThreadsOk, TaskOf;
    assert LockOk(w, sys, db);
    hide Inv;
    var lock := Of(sys, db).lock;
    if lock.exclusive.Some? { assert Writes(w, sys, db, lock.exclusive.value); }
    if lock.upgrade.Some? { assert Upgrades(w, sys, db, lock.upgrade.value); }
    if lock.shared != {} {
      var u :| u in lock.shared;
      assert Reads(w, sys, db, u);
    }
  }
}
