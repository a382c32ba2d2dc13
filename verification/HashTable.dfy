/** Db::HashTable: the same operations over one map. */
module HashTables {
  import opened ByteStrings
  import opened Stores
  import Replies

  class HashTable {
    const compile: Bytes -> Option<Callback>
    const walk: Walk  // how unordered_map is walked, the next time it is

    var table: Table
    var walks: nat

    ghost predicate Valid()
      reads this
    {
      GoodWalk(walk)
    }

    constructor (compile: Bytes -> Option<Callback>, walk: Walk)
      requires GoodWalk(walk)
      ensures Valid() && table == map[] && walks == 0
      ensures this.compile == compile && this.walk == walk
    {
      this.compile, this.walk := compile, walk;
      table, walks := map[], 0;
    }

    method Get(arguments: seq<Bytes>) returns (reply: Bytes)
      requires Valid() && |arguments| >= 2
      ensures Outcome(table, reply) == TableApply(table, Op.Get(arguments[1]), walk(walks, table.Keys))
    {
      if arguments[1] !in table {
        return Replies.NIL;
      }
      return Replies.ToReplyString(table[arguments[1]]);
    }

    method Set(arguments: seq<Bytes>) returns (reply: Bytes)
      requires Valid() && |arguments| >= 3
      modifies this`table
      ensures Outcome(table, reply)
           == old(TableApply(table, Op.Set(arguments[1], arguments[2]), walk(walks, table.Keys)))
    {
      table := table[arguments[1] := arguments[2]];
      return Replies.OK;
    }

    method Del(arguments: seq<Bytes>) returns (reply: Bytes)
      requires Valid() && |arguments| >= 2
      modifies this`table
      ensures Outcome(table, reply) == old(TableApply(table, Op.Del(arguments[1]), walk(walks, table.Keys)))
    {
      if arguments[1] !in table {
        return Replies.FALSE;
      }
      table := table - {arguments[1]};
      return Replies.TRUE;
    }

    method ForEach(arguments: seq<Bytes>) returns (reply: Bytes)
      requires Valid() && |arguments| >= 2
      modifies this
      ensures Outcome(table, reply) ==
              old(TableApply(table, Op.ForEach(compile(arguments[1])), walk(walks, table.Keys)))
      ensures walks == old(walks) + if compile(arguments[1]).Some? then 1 else 0
    {
      var vm := compile(arguments[1]);
      if vm.None? {
        return Replies.ERROR;
      }
      var order := walk(walks, table.Keys);
      walks := walks + 1;
      reply := RenewAll(vm.value, order);
    }

    /** The loop of foreach, under a callback that compiled. */
    method RenewAll(f: Callback, order: seq<Bytes>) returns (reply: Bytes)
      requires Enumerates(order, table.Keys)
      modifies this`table
      ensures Outcome(table, reply) == old(TableApply(table, Op.ForEach(Some(f)), order))
    {
      hide TableRenewed, FailingStep;
      ghost var before := table;
      var i := 0;
      RenewNone(before, f);
      assert order[..0] == [];
      while i < |order|
        invariant i <= |order|
        invariant forall k :: 0 <= k < i ==> f(order[k], before[order[k]]).Some?
        invariant table == TableRenewed(before, order[..i], f)
      {
        RenewStep(before, order, f, i);
        var renewed := f(order[i], table[order[i]]);
        if renewed.None? {
          StopsAt(before, order, f, i);
          return Replies.ERROR;
        }
        table := table[order[i] := renewed.value];
        i := i + 1;
      }
      StopsAt(before, order, f, i);
      return Replies.TRUE;
    }
  }

  /** The walk meets each key once, so it still finds the old value there. */
  lemma RenewStep(m: Table, order: seq<Bytes>, f: Callback, i: nat)
    requires Enumerates(order, m.Keys) && i < |order|
    ensures TableRenewed(m, order[..i], f)[order[i]] == m[order[i]]
    ensures f(order[i], m[order[i]]).Some? ==>
              TableRenewed(m, order[..i + 1], f)
              == TableRenewed(m, order[..i], f)[order[i] := f(order[i], m[order[i]]).value]
  {
    hide Enumerates;
    NotYetWalked(m, order, i);
    RenewOne(m, order[..i], order[i], f);
    assert order[..i + 1] == order[..i] + [order[i]];
  }

  lemma NotYetWalked(m: Table, order: seq<Bytes>, i: nat)
    requires Enumerates(order, m.Keys) && i < |order|
    ensures order[i] in m && order[i] !in order[..i]
  {}

  lemma RenewOne(m: Table, keys: seq<Bytes>, key: Bytes, f: Callback)
    requires key in m && key !in keys
    ensures TableRenewed(m, keys, f)[key] == m[key]
    ensures f(key, m[key]).Some? ==>
              TableRenewed(m, keys + [key], f) == TableRenewed(m, keys, f)[key := f(key, m[key]).value]
  {}

  lemma RenewNone(m: Table, f: Callback)
    ensures TableRenewed(m, [], f) == m
  {}

  lemma StopsAt(m: Table, order: seq<Bytes>, f: Callback, p: nat)
    requires p <= |order| && forall i :: 0 <= i < |order| ==> order[i] in m
    requires forall k :: 0 <= k < p ==> f(order[k], m[order[k]]).Some?
    requires p < |order| ==> f(order[p], m[order[p]]).None?
    ensures FailingStep(m, order, f, 0) == p
  {}
}
