/** The bodies of the database operations, cut into the steps between which another thread may run,
    and the proof that one body run to its end is the operation of Stores.
 */
module Bodies {
  import opened ByteStrings
  import opened Stores
  import Replies
  import AvlTrees
  import HashTables

  /** The tree database at the grain of its two structures: the list of nodes, and which hashes the
      tree has linked.  In the middle of a set or a del the two differ. */
  datatype Store =
    | Tree(nodes: Entries, linked: set<int>)
    | Map(table: Table)

  datatype Env = Env(hash: Hash, walk: Walk)

  /** Where a body has got to. */
  datatype Local =
    | Begin(op: Op, ticket: nat)
    | ReadingValue(key: Bytes)                  // found, the value not read yet
    | Linking(h: int)                           // pushed on the list, not in the tree yet
    | Erasing(h: int)                           // out of the tree, still on the list
    | AtNode(f: Callback, i: nat)               // a foreach over the list
    | AtKey(f: Callback, rest: seq<Bytes>)      // a foreach over the table
    | Done(reply: Bytes)

  datatype Config = Config(local: Local, store: Store)

  function Links(es: Entries): set<int> {
    set i | 0 <= i < |es| :: es[i].internalKey
  }

  function TreeStore(es: Entries): Store {
    Tree(es, Links(es))
  }

  function BeginStep(env: Env, op: Op, ticket: nat, s: Store): Config {
    match s
    case Tree(nodes, linked) => (
      match op
      case Get(key) =>
        var i := IndexOf(nodes, env.hash(key));
        Config(if env.hash(key) in linked && i < |nodes| then ReadingValue(key) else Done(Replies.NIL), s)
      case Set(key, value) =>
        var h, i := env.hash(key), IndexOf(nodes, env.hash(key));
        if h in linked && i < |nodes| then Config(Done(Replies.OK), s.(nodes := nodes[i := nodes[i].(value := value)]))
        else Config(Linking(h), s.(nodes := nodes + [Entry(h, key, value)]))
      case Del(key) =>
        var h := env.hash(key);
        if h in linked then Config(Erasing(h), s.(linked := linked - {h})) else Config(Done(Replies.FALSE), s)
      case ForEach(None) => Config(Done(Replies.ERROR), s)
      case ForEach(Some(f)) => Config(AtNode(f, 0), s))
    case Map(table) => (
      match op
      case Get(key) => Config(if key in table then ReadingValue(key) else Done(Replies.NIL), s)
      case Set(key, value) => Config(Done(Replies.OK), Map(table[key := value]))
      case Del(key) =>
        if key in table then Config(Done(Replies.TRUE), Map(table - {key})) else Config(Done(Replies.FALSE), s)
      case ForEach(None) => Config(Done(Replies.ERROR), s)
      case ForEach(Some(f)) => Config(AtKey(f, env.walk(ticket, table.Keys)), s))
  }

  /** The reply made from the value found under a key. */
  function ValueReply(env: Env, key: Bytes, s: Store): Bytes {
    match s
    case Tree(nodes, _) =>
      var i := IndexOf(nodes, env.hash(key));
      if i < |nodes| then Replies.ToReplyString(nodes[i].value) else Replies.NIL
    case Map(table) => if key in table then Replies.ToReplyString(table[key]) else Replies.NIL
  }

  /** One step of a body that is not done. */
  function BodyStep(env: Env, l: Local, s: Store): Config {
    match l
    case Begin(op, ticket) => BeginStep(env, op, ticket, s)
    case ReadingValue(key) => Config(Done(ValueReply(env, key, s)), s)
    case Linking(h) =>
      if s.Tree? then Config(Done(Replies.OK), s.(linked := s.linked + {h})) else Config(Done(Replies.OK), s)
    case Erasing(h) =>
      Config(Done(Replies.TRUE),
             if s.Tree? && IndexOf(s.nodes, h) < |s.nodes| then s.(nodes := Without(s.nodes, IndexOf(s.nodes, h)))
             else s)
    case AtNode(f, i) =>
      if s.Map? || i >= |s.nodes| then Config(Done(Replies.TRUE), s)
      else (match f(s.nodes[i].key, s.nodes[i].value)
            case None => Config(Done(Replies.ERROR), s)
            case Some(v) => Config(AtNode(f, i + 1), s.(nodes := s.nodes[i := s.nodes[i].(value := v)])))
    case AtKey(f, rest) =>
      if s.Tree? || rest == [] || rest[0] !in s.table then Config(Done(Replies.TRUE), s)
      else (match f(rest[0], s.table[rest[0]])
            case None => Config(Done(Replies.ERROR), s)
            case Some(v) => Config(AtKey(f, rest[1..]), Map(s.table[rest[0] := v])))
    case Done(_) => Config(l, s)
  }

  /** How many steps a body has left. */
  function Rank(env: Env, l: Local, s: Store): nat {
    match l
    case Done(_) => 0
    case ReadingValue(_) => 1
    case Linking(_) => 1
    case Erasing(_) => 1
    case AtNode(_, i) => 1 + if s.Tree? && i < |s.nodes| then |s.nodes| - i else 0
    case AtKey(_, rest) => 1 + |rest|
    case Begin(op, ticket) =>
      2 + if op.ForEach? then (if s.Tree? then |s.nodes| else |env.walk(ticket, s.table.Keys)|) else 0
  }

  lemma RankFalls(env: Env, l: Local, s: Store)
    requires !l.Done?
    ensures var c := BodyStep(env, l, s); Rank(env, c.local, c.store) < Rank(env, l, s)
  {}

  /** The body from here to its end, uninterrupted. */
  function RunBody(env: Env, l: Local, s: Store): Outcome<Store>
    decreases Rank(env, l, s)
  {
    match l
    case Done(reply) => Outcome(s, reply)
    case _ =>
      RankFalls(env, l, s);
      var c := BodyStep(env, l, s);
      RunBody(env, c.local, c.store)
  }

  /** The operation as one step: what the databases of Stores do. */
  function Apply(env: Env, s: Store, op: Op, ticket: nat): Outcome<Store>
    requires s.Map? ==> Enumerates(env.walk(ticket, s.table.Keys), s.table.Keys)
  {
    match s
    case Tree(nodes, _) =>
      var o := TreeApply(env.hash, nodes, op);
      Outcome(TreeStore(o.store), o.reply)
    case Map(table) =>
      var o := TableApply(table, op, env.walk(ticket, table.Keys));
      Outcome(Map(o.store), o.reply)
  }

  /** Between operations the two structures of the tree database agree. */
  predicate Consistent(env: Env, s: Store) {
    s.Tree? ==> s == TreeStore(s.nodes) && Distinct(s.nodes) && Keyed(env.hash, s.nodes)
  }

  lemma LinksOf(es: Entries, h: int)
    ensures h in Links(es) <==> IndexOf(es, h) < |es|
  {
    var i := IndexOf(es, h);
    if i < |es| { assert es[i].internalKey == h; }
  }

  /** Why a set needs the lock: between its steps the node is on the list and not in the tree ... */
  lemma TornSet(env: Env, es: Entries, key: Bytes, value: Bytes, ticket: nat)
    requires env.hash(key) !in Links(es)
    ensures var c := BodyStep(env, Begin(Set(key, value), ticket), TreeStore(es));
            c.store == Tree(es + [Entry(env.hash(key), key, value)], Links(es)) && !Consistent(env, c.store)
  {
    var all := es + [Entry(env.hash(key), key, value)];
    assert all[|es|].internalKey == env.hash(key);
    assert env.hash(key) in Links(all);
  }

  /** ... and in a del it is out of the tree and still on the list. */
  lemma TornDel(env: Env, es: Entries, key: Bytes, ticket: nat)
    requires env.hash(key) in Links(es)
    ensures var c := BodyStep(env, Begin(Del(key), ticket), TreeStore(es));
            c.store == Tree(es, Links(es) - {env.hash(key)}) && !Consistent(env, c.store)
  {}

  /** One step, and then the rest. */
  lemma RunUnfold(env: Env, local: Local, s: Store)
    requires !local.Done?
    ensures var c := BodyStep(env, local, s); RunBody(env, local, s) == RunBody(env, c.local, c.store)
  {
    hide BodyStep, Rank;
  }

  lemma RunDone(env: Env, reply: Bytes, s: Store)
    ensures RunBody(env, Done(reply), s) == Outcome(s, reply)
  {}

  /** A foreach over the list, at its i-th node. */
  lemma NodeStep(env: Env, f: Callback, i: nat, es: Entries)
    requires i < |es|
    ensures BodyStep(env, AtNode(f, i), Tree(RenewedUpTo(es, f, i), Links(es))) ==
            match f(es[i].key, es[i].value)
            case None => Config(Done(Replies.ERROR), Tree(RenewedUpTo(es, f, i), Links(es)))
            case Some(_) => Config(AtNode(f, i + 1), Tree(RenewedUpTo(es, f, i + 1), Links(es)))
  {
    hide Links;
    var r := RenewedUpTo(es, f, i);
    assert r[i] == es[i];
    assert r[i := Renewed(es[i], f)] == RenewedUpTo(es, f, i + 1);
  }

  lemma {:induction false} NodesWalked(env: Env, f: Callback, i: nat, es: Entries)
    requires i <= |es| && forall k :: 0 <= k < i ==> f(es[k].key, es[k].value).Some?
    ensures var p := FirstFailure(es, f, 0);
            RunBody(env, AtNode(f, i), Tree(RenewedUpTo(es, f, i), Links(es))) ==
            Outcome(Tree(RenewedUpTo(es, f, p), Links(es)), if p == |es| then Replies.TRUE else Replies.ERROR)
    decreases |es| - i
  {
    hide RunBody, FirstFailure, RenewedUpTo, Links;
    var s := Tree(RenewedUpTo(es, f, i), Links(es));
    RunUnfold(env, AtNode(f, i), s);
    if i < |es| {
      NodeStep(env, f, i, es);
      if f(es[i].key, es[i].value).Some? {
        NodesWalked(env, f, i + 1, es);
      } else {
        AvlTrees.FailsAt(es, f, i);
        RunDone(env, Replies.ERROR, s);
      }
    } else {
      AvlTrees.FailsAt(es, f, i);
      RunDone(env, Replies.TRUE, s);
    }
  }

  /** A foreach over the table, at the i-th key of its walk. */
  lemma KeyStep(env: Env, f: Callback, i: nat, m: Table, order: seq<Bytes>)
    requires Enumerates(order, m.Keys) && i < |order|
    ensures BodyStep(env, AtKey(f, order[i..]), Map(TableRenewed(m, order[..i], f))) ==
            match f(order[i], m[order[i]])
            case None => Config(Done(Replies.ERROR), Map(TableRenewed(m, order[..i], f)))
            case Some(_) => Config(AtKey(f, order[i + 1..]), Map(TableRenewed(m, order[..i + 1], f)))
  {
    hide TableRenewed;
    HashTables.RenewStep(m, order, f, i);
    assert order[i..][0] == order[i] && order[i..][1..] == order[i + 1..];
  }

  lemma {:induction false} KeysWalked(env: Env, f: Callback, i: nat, m: Table, order: seq<Bytes>)
    requires Enumerates(order, m.Keys) && i <= |order|
    requires forall k :: 0 <= k < i ==> f(order[k], m[order[k]]).Some?
    ensures var p := FailingStep(m, order, f, 0);
            RunBody(env, AtKey(f, order[i..]), Map(TableRenewed(m, order[..i], f))) ==
            Outcome(Map(TableRenewed(m, order[..p], f)), if p == |order| then Replies.TRUE else Replies.ERROR)
    decreases |order| - i
  {
    hide RunBody, FailingStep, TableRenewed;
    var s := Map(TableRenewed(m, order[..i], f));
    RunUnfold(env, AtKey(f, order[i..]), s);
    if i < |order| {
      KeyStep(env, f, i, m, order);
      if f(order[i], m[order[i]]).Some? {
        KeysWalked(env, f, i + 1, m, order);
      } else {
        HashTables.StopsAt(m, order, f, i);
        RunDone(env, Replies.ERROR, s);
      }
    } else {
      HashTables.StopsAt(m, order, f, i);
      RunDone(env, Replies.TRUE, s);
    }
  }

  /** A body that is not interrupted is the operation. */
  lemma BodyIsOperation(env: Env, s: Store, op: Op, ticket: nat)
    requires Consistent(env, s) && (s.Map? ==> Enumerates(env.walk(ticket, s.table.Keys), s.table.Keys))
    ensures RunBody(env, Begin(op, ticket), s) == Apply(env, s, op, ticket)
    ensures Consistent(env, Apply(env, s, op, ticket).store)
  {
    match s
    case Map(m) => MapBody(env, m, op, ticket);
    case Tree(es, _) =>
      TreeApplyKeeps(env.hash, es, op);
      match op
      case Get(key) =>
        LinksOf(es, env.hash(key));
        ReadBody(env, key, s);
      case Set(key, value) => SetBody(env, es, key, value, ticket);
      case Del(key) => DelBody(env, es, key, ticket);
      case ForEach(None) =>
      case ForEach(Some(f)) => NodesBody(env, es, f, ticket);
  }

  lemma ReadBody(env: Env, key: Bytes, s: Store)
    ensures RunBody(env, ReadingValue(key), s) == Outcome(s, ValueReply(env, key, s))
  {}

  lemma MapBody(env: Env, m: Table, op: Op, ticket: nat)
    requires Enumerates(env.walk(ticket, m.Keys), m.Keys)
    ensures RunBody(env, Begin(op, ticket), Map(m)) == Apply(env, Map(m), op, ticket)
  {
    if op.Get? {
      ReadBody(env, op.key, Map(m));
    } else if op.ForEach? && op.vm.Some? {
      var order, f := env.walk(ticket, m.Keys), op.vm.value;
      hide RunBody, TableRenewed, FailingStep;
      RunUnfold(env, Begin(op, ticket), Map(m));
      KeysWalked(env, f, 0, m, order);
      HashTables.RenewNone(m, f);
      assert order[..0] == [] && order[0..] == order;
      assert BodyStep(env, Begin(op, ticket), Map(m)) == Config(AtKey(f, order), Map(m));
    }
  }

  lemma SetBody(env: Env, es: Entries, key: Bytes, value: Bytes, ticket: nat)
    ensures RunBody(env, Begin(Set(key, value), ticket), TreeStore(es))
         == Apply(env, TreeStore(es), Set(key, value), ticket)
  {
    var h := env.hash(key);
    LinksOf(es, h);
    var i := IndexOf(es, h);
    if i < |es| {
      var r := es[i := es[i].(value := value)];
      SameLinks(es, r);
    } else {
      var r := es + [Entry(h, key, value)];
      LinksPush(es, Entry(h, key, value));
      assert RunBody(env, Linking(h), Tree(r, Links(es))) == Outcome(Tree(r, Links(es) + {h}), Replies.OK);
    }
  }

  lemma SameLinks(a: Entries, b: Entries)
    requires |a| == |b| && forall k :: 0 <= k < |a| ==> b[k].internalKey == a[k].internalKey
    ensures Links(a) == Links(b)
  {
    forall h ensures h in Links(a) <==> h in Links(b) {
      SameIndex(a, b, h);
      LinksOf(a, h);
      LinksOf(b, h);
    }
  }

  lemma LinksPush(es: Entries, e: Entry)
    ensures Links(es + [e]) == Links(es) + {e.internalKey}
  {
    var r := es + [e];
    forall h ensures h in Links(r) <==> h in Links(es) + {e.internalKey} {
      if h in Links(r) { var k :| 0 <= k < |r| && r[k].internalKey == h; }
      if h in Links(es) { var k :| 0 <= k < |es| && es[k].internalKey == h; assert r[k].internalKey == h; }
      assert r[|es|].internalKey == e.internalKey;
    }
  }

  lemma LinksErase(es: Entries, i: nat)
    requires Distinct(es) && i < |es|
    ensures Links(Without(es, i)) == Links(es) - {es[i].internalKey}
  {
    var r := Without(es, i);
    forall h ensures h in Links(r) <==> h in Links(es) - {es[i].internalKey} {
      if h in Links(r) {
        var k :| 0 <= k < |r| && r[k].internalKey == h;
        assert r[k] == es[if k < i then k else k + 1];
      }
      if h in Links(es) && h != es[i].internalKey {
        var k :| 0 <= k < |es| && es[k].internalKey == h;
        assert r[if k < i then k else k - 1] == es[k];
      }
    }
  }

  lemma DelBody(env: Env, es: Entries, key: Bytes, ticket: nat)
    requires Distinct(es)
    ensures RunBody(env, Begin(Del(key), ticket), TreeStore(es)) == Apply(env, TreeStore(es), Del(key), ticket)
  {
    var h := env.hash(key);
    LinksOf(es, h);
    var i := IndexOf(es, h);
    if i < |es| {
      LinksErase(es, i);
      assert RunBody(env, Erasing(h), Tree(es, Links(es) - {h})) ==
             Outcome(Tree(Without(es, i), Links(es) - {h}), Replies.TRUE);
    }
  }

  lemma NodesBody(env: Env, es: Entries, f: Callback, ticket: nat)
    ensures RunBody(env, Begin(ForEach(Some(f)), ticket), TreeStore(es)) ==
            Apply(env, TreeStore(es), ForEach(Some(f)), ticket)
  {
    NodesWalked(env, f, 0, es);
    assert RenewedUpTo(es, f, 0) == es;
    var r := RenewedUpTo(es, f, FirstFailure(es, f, 0));
    assert forall k :: 0 <= k < |es| ==> r[k].internalKey == es[k].internalKey;
    SameLinks(es, r);
  }
}
