/** Whole runs of the lock protocol: mutual exclusion, linearizability in real time, no deadlock, and
    an end under every fair schedule.
 */
module Linearizability {
  import opened ByteStrings
  import opened Stores
  import opened Bodies
  import opened Dispatch
  import opened Locking
  import opened LockSteps
  import Pool

  /** The state after n moves of a schedule; a thread the locks hold back does not move. */
  function At(w: World, start: Sys, schedule: nat -> nat, n: nat): Sys {
    if n == 0 then start
    else
      var sys := At(w, start, schedule, n - 1);
      if Enabled(w, sys, schedule(n - 1)) then Step(w, sys, schedule(n - 1)) else sys
  }

  lemma {:induction false} RunInv(w: World, programs: seq<seq<Command>>, schedule: nat -> nat, n: nat)
    requires GoodWorld(w)
    ensures Inv(w, programs, At(w, Initial(programs), schedule, n))
  {
    hide Inv, Step, Enabled;
    if n == 0 {
      InitialInv(w, programs);
    } else {
      RunInv(w, programs, schedule, n - 1);
      var sys := At(w, Initial(programs), schedule, n - 1);
      if Enabled(w, sys, schedule(n - 1)) { StepInv(w, programs, sys, schedule(n - 1)); }
    }
  }

  /** Safety: in every state of every run a writer is alone among those inside a body of its database,
      and no two threads hold upgrade of one database, so no two wait for each other to give it up. */
  lemma MutualExclusion(w: World, programs: seq<seq<Command>>, schedule: nat -> nat, n: nat, db: DbName)
    requires GoodWorld(w)
    ensures var sys := At(w, Initial(programs), schedule, n);
            && (forall t: nat, u: nat ::
                  Writes(w, sys, db, t) && (Writes(w, sys, db, u) || Reads(w, sys, db, u) || Upgrades(w, sys, db, u))
                  ==> t == u)
            && (forall t: nat, u: nat :: Upgrades(w, sys, db, t) && Upgrades(w, sys, db, u) ==> t == u)
  {
    hide Sequential, ThreadsOk, At, Step, StoreOk, TaskOf;
    RunInv(w, programs, schedule, n);
    Excludes(w, At(w, Initial(programs), schedule, n), db);
  }

  lemma Excludes(w: World, sys: Sys, db: DbName)
    requires LockOk(w, sys, db)
    ensures forall t: nat, u: nat ::
              Writes(w, sys, db, t) && (Writes(w, sys, db, u) || Reads(w, sys, db, u) || Upgrades(w, sys, db, u))
              ==> t == u
    ensures forall t: nat, u: nat :: Upgrades(w, sys, db, t) && Upgrades(w, sys, db, u) ==> t == u
  {
    hide TaskOf;
    var lock := Of(sys, db).lock;
    forall t: nat, u: nat |
      Writes(w, sys, db, t) && (Writes(w, sys, db, u) || Reads(w, sys, db, u) || Upgrades(w, sys, db, u))
      ensures t == u
    {
      assert lock.exclusive == Some(t) && lock.shared == {} && lock.upgrade.None?;
      assert u !in lock.shared;
    }
    forall t: nat, u: nat | Upgrades(w, sys, db, t) && Upgrades(w, sys, db, u) ensures t == u {
      assert lock.upgrade == Some(t) && lock.upgrade == Some(u);
    }
  }

  // ---- The log ----

  /** The log only grows. */
  lemma {:induction false} LogGrows(w: World, start: Sys, schedule: nat -> nat, m: nat, n: nat)
    requires m <= n
    ensures At(w, start, schedule, m).log <= At(w, start, schedule, n).log
    decreases n
  {
    hide Step, Enabled;
    if m < n {
      LogGrows(w, start, schedule, m, n - 1);
      var sys := At(w, start, schedule, n - 1);
      if Enabled(w, sys, schedule(n - 1)) { StepLog(w, sys, schedule(n - 1)); }
    }
  }

  lemma StepLog(w: World, sys: Sys, t: nat)
    requires Enabled(w, sys, t)
    ensures var log := Step(w, sys, t).log; log == sys.log || log == sys.log + [Event(t, sys.threads[t].todo[0])]
  {
    hide TaskOf, BodyStep;
  }

  lemma EnabledIsThread(w: World, sys: Sys, t: nat)
    requires Enabled(w, sys, t)
    ensures t < |sys.threads|
  {
    hide TaskOf;
  }

  lemma StepThreads(w: World, sys: Sys, t: nat)
    requires Enabled(w, sys, t)
    ensures |Step(w, sys, t).threads| == |sys.threads|
  {
    hide TaskOf, BodyStep;
  }

  lemma {:induction false} SameThreads(w: World, start: Sys, schedule: nat -> nat, n: nat)
    ensures |At(w, start, schedule, n).threads| == |start.threads|
  {
    hide Enabled, Step;
    if n > 0 {
      SameThreads(w, start, schedule, n - 1);
      var sys := At(w, start, schedule, n - 1);
      if Enabled(w, sys, schedule(n - 1)) { StepThreads(w, sys, schedule(n - 1)); }
    }
  }

  /** The log names existing clients only. */
  lemma {:induction false} LoggedThreads(w: World, programs: seq<seq<Command>>, schedule: nat -> nat, n: nat)
    ensures forall e :: e in At(w, Initial(programs), schedule, n).log ==> e.thread < |programs|
  {
    hide Step, Enabled;
    if n > 0 {
      LoggedThreads(w, programs, schedule, n - 1);
      SameThreads(w, Initial(programs), schedule, n - 1);
      var sys, t := At(w, Initial(programs), schedule, n - 1), schedule(n - 1);
      if Enabled(w, sys, t) {
        EnabledIsThread(w, sys, t);
        StepLog(w, sys, t);
      }
    }
  }

  // ---- Linearizability ----

  /** What thread t has been answered, and what it has left, match its part of the sequential run. */
  ghost predicate Matches(program: seq<Command>, th: Thread, mine: seq<Bytes>, begun: seq<Command>) {
    && th.replies <= mine && |mine| <= |th.replies| + 1      // at most one command in flight
    && begun <= program && |begun| == |mine|
    && |th.replies| <= |program| && th.todo == program[|th.replies|..]  // logged after it begins ...
    && (th.pc.Idle? ==> mine == th.replies)                  // ... and before it is answered
  }

  /** The log explains a state: it orders the clients' commands, and no others, so that, served one after
      the other by a fresh server, they give every reply given so far and what the databases hold. */
  ghost predicate Explains(w: World, programs: seq<seq<Command>>, sys: Sys)
    requires GoodWorld(w) && |sys.threads| == |programs|
  {
    var r := Sequential(w, sys.log);
    && (forall e :: e in sys.log ==> e.thread < |programs|)
    && (sys.table.lock.exclusive.None? ==> sys.table.store == Map(r.state.table))
    && (sys.tree.lock.exclusive.None? ==> sys.tree.store == TreeStore(r.state.tree))
    && forall t: nat :: t < |programs| ==>
         Matches(programs[t], sys.threads[t], RepliesOf(sys.log, r.replies, t), CommandsBy(sys.log, t))
  }

  lemma {:induction false} SameLength(log: seq<Event>, replies: seq<Bytes>, t: nat)
    requires |log| == |replies|
    ensures |RepliesOf(log, replies, t)| == |CommandsBy(log, t)|
  {
    if log != [] { SameLength(log[..|log| - 1], replies[..|log| - 1], t); }
  }

  lemma ThreadMatches(w: World, program: seq<Command>, th: Thread, t: nat, table: Store, tree: Store,
                      log: seq<Event>, replies: seq<Bytes>)
    requires |log| == |replies| && ThreadOk(w, program, th, t, table, tree, log, replies)
    ensures Matches(program, th, RepliesOf(log, replies, t), CommandsBy(log, t))
  {
    hide RunBody, RepliesOf, CommandsBy, TaskOf;
    SameLength(log, replies, t);
    var begun := CommandsBy(log, t);
    if th.pc.Running? || th.pc.Downgraded? {
      assert begun + th.todo[1..] == program;
      InFlight(begun, th.todo, program);
    } else {
      assert begun + th.todo == program;
      assert program[|begun|..] == th.todo;
    }
  }

  /** The command in flight is the last one logged. */
  lemma InFlight(begun: seq<Command>, todo: seq<Command>, program: seq<Command>)
    requires todo != [] && begun != [] && begun + todo[1..] == program && begun[|begun| - 1] == todo[0]
    ensures program[|begun| - 1..] == todo
  {
    assert program[|begun| - 1] == todo[0];
    assert program[|begun|..] == todo[1..];
  }

  /** In every state of every run the log explains what the clients have seen. */
  lemma Linearizable(w: World, programs: seq<seq<Command>>, schedule: nat -> nat, n: nat)
    requires GoodWorld(w)
    ensures var sys := At(w, Initial(programs), schedule, n);
            |sys.threads| == |programs| && Explains(w, programs, sys)
  {
    hide Sequential, ThreadOk, At, Step, LockOk, RepliesOf, CommandsBy, Matches, TaskOf;
    RunInv(w, programs, schedule, n);
    LoggedThreads(w, programs, schedule, n);
    var sys := At(w, Initial(programs), schedule, n);
    var r := Sequential(w, sys.log);
    forall t: nat | t < |programs|
      ensures Matches(programs[t], sys.threads[t], RepliesOf(sys.log, r.replies, t), CommandsBy(sys.log, t))
    {
      ThreadMatches(w, programs[t], sys.threads[t], t, sys.table.store, sys.tree.store, sys.log, r.replies);
    }
  }

  /** Position p of the log is the k-th command of thread t, counting from nought. */
  predicate IsNth(log: seq<Event>, p: nat, t: nat, k: nat) {
    p < |log| && log[p].thread == t && |CommandsBy(log[..p], t)| == k
  }

  lemma {:induction false} FewerBefore(log: seq<Event>, p: nat, t: nat)
    requires p <= |log|
    ensures |CommandsBy(log[..p], t)| <= |CommandsBy(log, t)|
    decreases |log|
  {
    if p < |log| {
      FewerBefore(log[..|log| - 1], p, t);
      assert log[..|log| - 1][..p] == log[..p];
    } else {
      assert log[..p] == log;
    }
  }

  lemma CountAt(log: seq<Event>, p: nat, t: nat, k: nat)
    requires IsNth(log, p, t, k)
    ensures |CommandsBy(log[..p + 1], t)| == k + 1
  {
    assert log[..p + 1][..p] == log[..p];
  }

  /** Real time: if at some moment thread t has been answered its k-th command and thread u, idle, has
      not begun its j-th, then t's comes before u's in the order of every later state. */
  lemma RealTime(w: World, programs: seq<seq<Command>>, schedule: nat -> nat, m: nat, n: nat,
                 t: nat, k: nat, u: nat, j: nat, p: nat, q: nat)
    requires GoodWorld(w) && m <= n && t < |programs| && u < |programs|
    requires var sys := At(w, Initial(programs), schedule, m);
             && |sys.threads| == |programs|
             && k < |sys.threads[t].replies|
             && sys.threads[u].pc.Idle? && |sys.threads[u].replies| <= j
    requires var log := At(w, Initial(programs), schedule, n).log; IsNth(log, p, t, k) && IsNth(log, q, u, j)
    ensures p < q
  {
    hide At, Sequential, RepliesOf;
    var sys := At(w, Initial(programs), schedule, m);
    var before, after := sys.log, At(w, Initial(programs), schedule, n).log;
    var r := Sequential(w, before);
    Linearizable(w, programs, schedule, m);
    LogGrows(w, Initial(programs), schedule, m, n);
    assert Matches(programs[t], sys.threads[t], RepliesOf(before, r.replies, t), CommandsBy(before, t));
    assert Matches(programs[u], sys.threads[u], RepliesOf(before, r.replies, u), CommandsBy(before, u));
    hide CommandsBy;
    LoggedBefore(before, after, p, t, k);
    LoggedAfter(before, after, q, u, j);
  }

  lemma LoggedBefore(before: seq<Event>, after: seq<Event>, p: nat, t: nat, k: nat)
    requires before <= after && IsNth(after, p, t, k) && k < |CommandsBy(before, t)|
    ensures p < |before|
  {
    if p >= |before| {
      assert after[..p][..|before|] == before;
      FewerBefore(after[..p], |before|, t);
    }
  }

  lemma LoggedAfter(before: seq<Event>, after: seq<Event>, q: nat, u: nat, j: nat)
    requires before <= after && IsNth(after, q, u, j) && |CommandsBy(before, u)| <= j
    ensures q >= |before|
  {
    CountAt(after, q, u, j);
    if q < |before| {
      assert after[..q + 1] == before[..q + 1];
      FewerBefore(before, q + 1, u);
    }
  }

  // ---- No deadlock ----

  predicate Unfinished(th: Thread) {
    th.todo != [] || !th.pc.Idle?
  }

  ghost predicate CanMove(w: World, sys: Sys) {
    exists t: nat :: Enabled(w, sys, t)
  }

  /** While anybody has work left, somebody can move. */
  lemma SomebodyMoves(w: World, programs: seq<seq<Command>>, sys: Sys, t: nat)
    requires Inv(w, programs, sys) && t < |sys.threads| && Unfinished(sys.threads[t])
    ensures CanMove(w, sys)
  {
    hide Sequential, RunBody, RepliesOf, CommandsBy, StoreOk, TaskOf, LockOk;
    var r := Sequential(w, sys.log);
    assert ThreadOk(w, programs[t], sys.threads[t], t, sys.table.store, sys.tree.store, sys.log, r.replies);
    hide ThreadOk, ThreadsOk;
    var th := sys.threads[t];
    match TaskAt(w, th)
    case NoLock(_) => assert Enabled(w, sys, t);
    case On(TableDb, op) => SomebodyAt(w, sys, TableDb, t);
    case On(TreeDb, op) => SomebodyAt(w, sys, TreeDb, t);
  }

  /** ... at the very database that thread is after. */
  lemma SomebodyAt(w: World, sys: Sys, db: DbName, t: nat)
    requires LockOk(w, sys, db) && t < |sys.threads| && sys.threads[t].todo != []
    requires TaskAt(w, sys.threads[t]).On? && TaskAt(w, sys.threads[t]).db == db
    ensures CanMove(w, sys)
  {
    hide TaskOf;
    var lock := Of(sys, db).lock;
    var u: nat;
    if lock.exclusive.Some? {
      u := lock.exclusive.value;
      assert Writes(w, sys, db, u);
    } else if lock.shared != {} {
      u :| u in lock.shared;
      assert Reads(w, sys, db, u);
    } else if lock.upgrade.Some? {
      u := lock.upgrade.value;
      assert Upgrades(w, sys, db, u);
    } else {
      u := t;
      assert !Reads(w, sys, db, t) && !Writes(w, sys, db, t) && !Upgrades(w, sys, db, t);
    }
    assert Enabled(w, sys, u);
  }

  // ---- Every run ends ----

  /** How far a thread is from the end of its program, bodies aside. */
  function Phases(th: Thread): nat {
    if th.todo == [] then 0
    else 4 * |th.todo| - match th.pc
                         case Idle => 0
                         case Waiting => 1
                         case Running(_) => 2
                         case Downgraded(_) => 3
  }

  function AllPhases(threads: seq<Thread>): nat {
    if threads == [] then 0 else Phases(threads[0]) + AllPhases(threads[1..])
  }

  function BodyRank(w: World, th: Thread, table: Store, tree: Store): nat {
    if th.pc.Running? && th.todo != [] && TaskAt(w, th).On? then
      Rank(EnvOf(w), th.pc.local, if TaskAt(w, th).db.TableDb? then table else tree)
    else 0
  }

  function AllRanks(w: World, threads: seq<Thread>, table: Store, tree: Store): nat {
    if threads == [] then 0 else BodyRank(w, threads[0], table, tree) + AllRanks(w, threads[1..], table, tree)
  }

  function RanksOf(w: World, sys: Sys): nat {
    AllRanks(w, sys.threads, sys.table.store, sys.tree.store)
  }

  lemma {:induction false} PutPhases(threads: seq<Thread>, t: nat, th: Thread)
    requires t < |threads|
    ensures AllPhases(threads[t := th]) == AllPhases(threads) - Phases(threads[t]) + Phases(th)
    decreases |threads|
  {
    if t > 0 {
      PutPhases(threads[1..], t - 1, th);
      assert threads[t := th][1..] == threads[1..][t - 1 := th];
    }
  }

  /** If one thread's rank falls and nobody else's changes, the sum falls. */
  lemma {:induction false} RanksFall(w: World, before: seq<Thread>, after: seq<Thread>, t: nat,
                                     table: Store, tree: Store, table': Store, tree': Store)
    requires t < |before| == |after|
    requires forall u: nat :: u < |before| && u != t ==>
               BodyRank(w, after[u], table', tree') == BodyRank(w, before[u], table, tree)
    requires BodyRank(w, after[t], table', tree') < BodyRank(w, before[t], table, tree)
    ensures AllRanks(w, after, table', tree') < AllRanks(w, before, table, tree)
    decreases |before|
  {
    hide BodyRank;
    var a, b := after[1..], before[1..];
    forall u: nat | u < |b| && u + 1 != t ensures BodyRank(w, a[u], table', tree') == BodyRank(w, b[u], table, tree) {
      assert a[u] == after[u + 1] && b[u] == before[u + 1];
    }
    if t > 0 {
      RanksFall(w, b, a, t - 1, table, tree, table', tree');
    } else {
      SameRanks(w, b, a, table, tree, table', tree');
    }
  }

  lemma {:induction false} SameRanks(w: World, before: seq<Thread>, after: seq<Thread>,
                                     table: Store, tree: Store, table': Store, tree': Store)
    requires |before| == |after|
    requires forall u: nat :: u < |before| ==>
               BodyRank(w, after[u], table', tree') == BodyRank(w, before[u], table, tree)
    ensures AllRanks(w, after, table', tree') == AllRanks(w, before, table, tree)
    decreases |before|
  {
    hide BodyRank;
    if before != [] {
      var a, b := after[1..], before[1..];
      forall u: nat | u < |b| ensures BodyRank(w, a[u], table', tree') == BodyRank(w, b[u], table, tree) {
        assert a[u] == after[u + 1] && b[u] == before[u + 1];
      }
      SameRanks(w, b, a, table, tree, table', tree');
    }
  }

  /** No step is wasted: each brings some thread closer to the end, or its body. */
  lemma WorkShrinks(w: World, programs: seq<seq<Command>>, sys: Sys, t: nat)
    requires Inv(w, programs, sys) && Enabled(w, sys, t)
    ensures var next := Step(w, sys, t);
            || AllPhases(next.threads) < AllPhases(sys.threads)
            || (AllPhases(next.threads) == AllPhases(sys.threads) && RanksOf(w, next) < RanksOf(w, sys))
  {
    hide TaskOf, BodyStep, AllPhases, RanksOf, Sequential, LockOk, StoreOk, ThreadsOk;
    var th, next := sys.threads[t], Step(w, sys, t);
    PutPhases(sys.threads, t, next.threads[t]);
    if th.pc.Running? && !th.pc.local.Done? && TaskAt(w, th).On? {
      BodyShrinks(w, programs, sys, t, TaskAt(w, th).db, TaskAt(w, th).op);
    }
  }

  lemma BodyShrinks(w: World, programs: seq<seq<Command>>, sys: Sys, t: nat, db: DbName, op: Op)
    requires Inv(w, programs, sys) && Enabled(w, sys, t) && TaskAt(w, sys.threads[t]) == On(db, op)
    requires sys.threads[t].pc.Running? && !sys.threads[t].pc.local.Done?
    ensures RanksOf(w, Step(w, sys, t)) < RanksOf(w, sys)
  {
    hide Rank, BodyStep, Sequential, RunBody, AllRanks, RepliesOf, CommandsBy, StoreOk, TaskOf;
    var th, next := sys.threads[t], Step(w, sys, t);
    var r := Sequential(w, sys.log);
    assert ThreadOk(w, programs[t], th, t, sys.table.store, sys.tree.store, sys.log, r.replies);
    RankFalls(EnvOf(w), th.pc.local, Of(sys, db).store);
    if op.Get? {
      ReadingStep(EnvOf(w), th.pc.local, Of(sys, db).store);
    } else {
      assert Writes(w, sys, db, t) && Of(sys, db).lock.exclusive == Some(t);
      assert forall u: nat :: u != t ==> !Writes(w, sys, db, u) && !Reads(w, sys, db, u);
    }
    forall u: nat | u < |sys.threads| && u != t
      ensures BodyRank(w, next.threads[u], next.table.store, next.tree.store)
           == BodyRank(w, sys.threads[u], sys.table.store, sys.tree.store)
    {
      assert op.Get? || (!Writes(w, sys, db, u) && !Reads(w, sys, db, u));
    }
    RanksFall(w, sys.threads, next.threads, t, sys.table.store, sys.tree.store, next.table.store, next.tree.store);
  }

  /** Some pick from the n-th on can move. */
  ghost predicate MovesAgain(w: World, start: Sys, schedule: nat -> nat, n: nat) {
    exists k: nat :: k >= n && Enabled(w, At(w, start, schedule, k), schedule(k))
  }

  ghost predicate Stalls(w: World, start: Sys, schedule: nat -> nat, n: nat) {
    CanMove(w, At(w, start, schedule, n)) && !MovesAgain(w, start, schedule, n)
  }

  /** Fairness: while somebody can move, some later pick does. */
  ghost predicate Fair(w: World, start: Sys, schedule: nat -> nat) {
    forall n: nat :: !Stalls(w, start, schedule, n)
  }

  /** Until the next pick that can move, the state stays as it is. */
  lemma {:induction false} FirstMove(w: World, start: Sys, schedule: nat -> nat, n: nat, k: nat) returns (m: nat)
    requires n <= k && Enabled(w, At(w, start, schedule, k), schedule(k))
    ensures n <= m <= k && At(w, start, schedule, m) == At(w, start, schedule, n)
    ensures Enabled(w, At(w, start, schedule, m), schedule(m))
    decreases k - n
  {
    hide Enabled, Step;
    if Enabled(w, At(w, start, schedule, n), schedule(n)) {
      m := n;
    } else {
      assert At(w, start, schedule, n + 1) == At(w, start, schedule, n);
      m := FirstMove(w, start, schedule, n + 1, k);
    }
  }

  /** The moves still to come, bodies aside, and those inside bodies. */
  function PhasesAt(w: World, start: Sys, schedule: nat -> nat, n: nat): nat {
    AllPhases(At(w, start, schedule, n).threads)
  }

  function RanksAt(w: World, start: Sys, schedule: nat -> nat, n: nat): nat {
    RanksOf(w, At(w, start, schedule, n))
  }

  /** If anybody can move, somebody will, and then there is less to do. */
  lemma NextMove(w: World, programs: seq<seq<Command>>, schedule: nat -> nat, n: nat) returns (m: nat)
    requires GoodWorld(w) && Fair(w, Initial(programs), schedule)
    requires CanMove(w, At(w, Initial(programs), schedule, n))
    ensures m > n
    ensures var start := Initial(programs);
            || PhasesAt(w, start, schedule, m) < PhasesAt(w, start, schedule, n)
            || (PhasesAt(w, start, schedule, m) == PhasesAt(w, start, schedule, n)
                && RanksAt(w, start, schedule, m) < RanksAt(w, start, schedule, n))
  {
    hide Inv, Step, Enabled, AllPhases, RanksOf, CanMove, At, Initial;
    var start := Initial(programs);
    assert !Stalls(w, start, schedule, n);
    var k: nat :| k >= n && Enabled(w, At(w, start, schedule, k), schedule(k));
    var f := FirstMove(w, start, schedule, n, k);
    RunInv(w, programs, schedule, f);
    WorkShrinks(w, programs, At(w, start, schedule, f), schedule(f));
    Moved(w, start, schedule, f);
    m := f + 1;
  }

  lemma Moved(w: World, start: Sys, schedule: nat -> nat, n: nat)
    requires Enabled(w, At(w, start, schedule, n), schedule(n))
    ensures At(w, start, schedule, n + 1) == Step(w, At(w, start, schedule, n), schedule(n))
  {
    hide Enabled, Step;
  }

  /** A fair run comes to a state in which nobody can move. */
  lemma {:induction false} RunEnds(w: World, programs: seq<seq<Command>>, schedule: nat -> nat, n: nat)
    returns (m: nat)
    requires GoodWorld(w) && Fair(w, Initial(programs), schedule)
    ensures m >= n && !CanMove(w, At(w, Initial(programs), schedule, m))
    decreases PhasesAt(w, Initial(programs), schedule, n), RanksAt(w, Initial(programs), schedule, n)
  {
    hide PhasesAt, RanksAt, CanMove, At, Initial, Fair;
    m := n;
    if CanMove(w, At(w, Initial(programs), schedule, n)) {
      m := NextMove(w, programs, schedule, n);
      m := RunEnds(w, programs, schedule, m);
    }
  }

  /** Every program runs to its end: under every fair schedule, after finitely many moves every command
      has been answered, the locks are free, and replies and databases are those of a fresh server that
      serves all commands one after the other, in an order that respects every client's own. */
  lemma EveryRunCompletes(w: World, programs: seq<seq<Command>>, schedule: nat -> nat) returns (m: nat)
    requires GoodWorld(w) && Fair(w, Initial(programs), schedule)
    ensures var sys := At(w, Initial(programs), schedule, m);
            var r := Serve(w, EMPTY, CommandsOf(sys.log));
            && |sys.threads| == |programs| && (forall e :: e in sys.log ==> e.thread < |programs|)
            && sys.table == Db(FREE, Map(r.state.table)) && sys.tree == Db(FREE, TreeStore(r.state.tree))
            && forall t: nat :: t < |programs| ==>
                 && !Unfinished(sys.threads[t])
                 && sys.threads[t].replies == RepliesOf(sys.log, r.replies, t)
                 && CommandsBy(sys.log, t) == programs[t]
                 && |sys.threads[t].replies| == |programs[t]|
  {
    m := RunEnds(w, programs, schedule, 0);
    var sys := At(w, Initial(programs), schedule, m);
    RunInv(w, programs, schedule, m);
    Linearizable(w, programs, schedule, m);
    hide Step, Enabled, Serve, At, RepliesOf, CommandsBy, StoreOk, ThreadsOk, CanMove, TaskOf;
    NobodyMoves(w, programs, sys);
    FreeAtLast(w, sys, TableDb);
    FreeAtLast(w, sys, TreeDb);
    var r := Sequential(w, sys.log);
    forall t: nat | t < |programs|
      ensures sys.threads[t].replies == RepliesOf(sys.log, r.replies, t) && CommandsBy(sys.log, t) == programs[t]
      ensures |sys.threads[t].replies| == |programs[t]|
    {
      assert Matches(programs[t], sys.threads[t], RepliesOf(sys.log, r.replies, t), CommandsBy(sys.log, t));
      assert programs[t][|sys.threads[t].replies|..] == [];
    }
  }

  lemma NobodyMoves(w: World, programs: seq<seq<Command>>, sys: Sys)
    requires Inv(w, programs, sys) && !CanMove(w, sys)
    ensures forall t: nat :: t < |sys.threads| ==> !Unfinished(sys.threads[t])
  {
    hide Inv, CanMove;
    forall t: nat | t < |sys.threads| && Unfinished(sys.threads[t]) ensures false {
      SomebodyMoves(w, programs, sys, t);
    }
  }

  lemma FreeAtLast(w: World, sys: Sys, db: DbName)
    requires LockOk(w, sys, db) && forall t: nat :: t < |sys.threads| ==> sys.threads[t].pc.Idle?
    ensures Of(sys, db).lock == FREE
  {
    hide TaskOf;
    assert forall t: nat :: t !in Of(sys, db).lock.shared;
    match Of(sys, db).lock.exclusive
    case Some(_) => assert false;
    case None =>
      match Of(sys, db).lock.upgrade
      case Some(_) => assert false;
      case None =>
  }

  // ---- Schedules that are fair ----

  ghost predicate PickedAgain(schedule: nat -> nat, t: nat, n: nat) {
    exists k: nat :: k >= n && schedule(k) == t
  }

  /** Picking every thread again and again is fair, however often a thread that is picked cannot move. */
  lemma PickingAllIsFair(w: World, programs: seq<seq<Command>>, schedule: nat -> nat)
    requires forall t: nat, n: nat :: t < |programs| ==> PickedAgain(schedule, t, n)
    ensures Fair(w, Initial(programs), schedule)
  {
    hide Enabled, Step, At;
    var start := Initial(programs);
    forall n: nat ensures !Stalls(w, start, schedule, n) {
      if CanMove(w, At(w, start, schedule, n)) {
        var t: nat :| Enabled(w, At(w, start, schedule, n), t);
        SameThreads(w, start, schedule, n);
        EnabledIsThread(w, At(w, start, schedule, n), t);
        assert PickedAgain(schedule, t, n);
        var k: nat :| k >= n && schedule(k) == t;
        PickedMoves(w, start, schedule, n, k, t);
      }
    }
  }

  /** A thread that can move at n and is picked at k: by then somebody has moved. */
  lemma {:induction false} PickedMoves(w: World, start: Sys, schedule: nat -> nat, n: nat, k: nat, t: nat)
    requires n <= k && schedule(k) == t && Enabled(w, At(w, start, schedule, n), t)
    ensures MovesAgain(w, start, schedule, n)
    decreases k - n
  {
    hide Enabled, Step;
    if !Enabled(w, At(w, start, schedule, n), schedule(n)) {
      assert At(w, start, schedule, n + 1) == At(w, start, schedule, n);
      PickedMoves(w, start, schedule, n + 1, k, t);
    }
  }

  /** Round robin, for instance. */
  lemma RoundRobinIsFair(w: World, programs: seq<seq<Command>>, schedule: nat -> nat)
    requires programs != [] && forall n: nat :: schedule(n) == n % |programs|
    ensures Fair(w, Initial(programs), schedule)
  {
    var c := |programs|;
    forall t: nat, n: nat | t < c ensures PickedAgain(schedule, t, n) {
      var k := c * n + t;
      Turn(c, n, t);
      assert schedule(k) == t;
    }
    PickingAllIsFair(w, programs, schedule);
  }

  lemma Turn(c: nat, n: nat, t: nat)
    requires t < c
    ensures c * n + t >= n && (c * n + t) % c == t
  {
    Pool.DivModIs(c * n + t, c, n, t);
    if n > 0 { Pool.MulGap(n, c, 0); }
    assert c * n >= n;
  }
}
