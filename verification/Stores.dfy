/** What the two databases mean: operations on values, the foreach law, and when the two agree.

    The tree database is the list of its entries in insertion order, at most one per hash of the key.
    The table database is a map from keys.  The hash and the callbacks are parameters.
 */
module Stores {
  import opened ByteStrings
  import opened Replies

  type Hash = Bytes -> int
  type Callback = (Bytes, Bytes) -> Option<Bytes>

  /** What a client can ask of a database.  A script that does not compile is ForEach(None). */
  datatype Op =
    | Get(key: Bytes)
    | Set(key: Bytes, value: Bytes)
    | Del(key: Bytes)
    | ForEach(vm: Option<Callback>)

  datatype Outcome<S> = Outcome(store: S, reply: Bytes)

  // ---- The tree database ----

  datatype Entry = Entry(internalKey: int, key: Bytes, value: Bytes)

  type Entries = seq<Entry>

  /** Where the entry with this hash is, or |es|. */
  function IndexOf(es: Entries, h: int): (i: nat)
    ensures i <= |es|
    ensures i < |es| ==> es[i].internalKey == h
    ensures forall k :: 0 <= k < i ==> es[k].internalKey != h
  {
    if es == [] || es[0].internalKey == h then 0 else 1 + IndexOf(es[1..], h)
  }

  predicate Distinct(es: Entries) {
    forall i, j :: 0 <= i < j < |es| ==> es[i].internalKey != es[j].internalKey
  }

  predicate Keyed(hash: Hash, es: Entries) {
    forall i :: 0 <= i < |es| ==> es[i].internalKey == hash(es[i].key)
  }

  function Without<T>(s: seq<T>, i: nat): seq<T>
    requires i < |s|
  {
    s[..i] + s[i + 1..]
  }

  /** The first entry from `from` on whose callback fails, or |es|. */
  function FirstFailure(es: Entries, f: Callback, from: nat): (p: nat)
    requires from <= |es|
    ensures from <= p <= |es|
    ensures forall i :: from <= i < p ==> f(es[i].key, es[i].value).Some?
    ensures p < |es| ==> f(es[p].key, es[p].value).None?
    decreases |es| - from
  {
    if from < |es| && f(es[from].key, es[from].value).Some? then FirstFailure(es, f, from + 1) else from
  }

  function Renewed(e: Entry, f: Callback): Entry {
    match f(e.key, e.value)
    case Some(v) => e.(value := v)
    case None => e
  }

  /** The first p entries renewed, the others as they were. */
  function RenewedUpTo(es: Entries, f: Callback, p: nat): (r: Entries)
    requires p <= |es|
    ensures |r| == |es|
    ensures forall i :: 0 <= i < |es| ==> r[i] == if i < p then Renewed(es[i], f) else es[i]
  {
    seq(|es|, i requires 0 <= i < |es| => if i < p then Renewed(es[i], f) else es[i])
  }

  function TreeApply(hash: Hash, es: Entries, op: Op): Outcome<Entries> {
    match op
    case Get(key) =>
      var i := IndexOf(es, hash(key));
      Outcome(es, if i == |es| then NIL else ToReplyString(es[i].value))
    case Set(key, value) =>
      var i := IndexOf(es, hash(key));
      Outcome(if i == |es| then es + [Entry(hash(key), key, value)] else es[i := es[i].(value := value)], OK)
    case Del(key) =>
      var i := IndexOf(es, hash(key));
      if i == |es| then Outcome(es, FALSE) else Outcome(Without(es, i), TRUE)
    case ForEach(None) => Outcome(es, ERROR)
    case ForEach(Some(f)) =>
      var p := FirstFailure(es, f, 0);
      Outcome(RenewedUpTo(es, f, p), if p == |es| then TRUE else ERROR)
  }

  /** What every operation keeps: one entry per hash, each under the hash of its own key. */
  lemma TreeApplyKeeps(hash: Hash, es: Entries, op: Op)
    requires Distinct(es) && Keyed(hash, es)
    ensures Distinct(TreeApply(hash, es, op).store) && Keyed(hash, TreeApply(hash, es, op).store)
  {
    if op.ForEach? && op.vm.Some? {
      var r := TreeApply(hash, es, op).store;
      assert forall i :: 0 <= i < |es| ==> r[i].internalKey == es[i].internalKey && r[i].key == es[i].key;
    }
  }

  // ---- The tree database as a map from hashes ----

  /** What is stored under a hash: the key that came first since the last delete, and the latest value. */
  type ByHash = map<int, (Bytes, Bytes)>

  function ViewByHash(es: Entries): (m: ByHash)
    ensures forall h :: h in m <==> IndexOf(es, h) < |es|
    ensures forall h :: h in m ==> var e := es[IndexOf(es, h)]; m[h] == (e.key, e.value)
  {
    HashesOf(es);
    map h | h in set i | 0 <= i < |es| :: es[i].internalKey :: var e := es[IndexOf(es, h)]; (e.key, e.value)
  }

  lemma HashesOf(es: Entries)
    ensures forall h :: (h in set i | 0 <= i < |es| :: es[i].internalKey) <==> IndexOf(es, h) < |es|
  {
    forall h ensures (h in set i | 0 <= i < |es| :: es[i].internalKey) <==> IndexOf(es, h) < |es| {
      var i := IndexOf(es, h);
      if i < |es| { assert es[i].internalKey == h; }
    }
  }

  predicate Total(f: Callback, m: ByHash) {
    forall h :: h in m ==> f(m[h].0, m[h].1).Some?
  }

  function AllRenewed(m: ByHash, f: Callback): (r: ByHash)
    requires Total(f, m)
    ensures r.Keys == m.Keys && forall h :: h in m ==> r[h] == (m[h].0, f(m[h].0, m[h].1).value)
  {
    map h | h in m :: (m[h].0, f(m[h].0, m[h].1).value)
  }

  /** The callback, if any, accepts everything stored. */
  predicate AcceptedByHash(m: ByHash, op: Op) {
    op.ForEach? && op.vm.Some? ==> Total(op.vm.value, m)
  }

  /** Operations on the map alone.  After a foreach that fails the map says which values may have
      changed, not which have: see PartlyRenewed. */
  function HashApply(hash: Hash, m: ByHash, op: Op): Outcome<ByHash> {
    match op
    case Get(key) => Outcome(m, if hash(key) in m then ToReplyString(m[hash(key)].1) else NIL)
    case Set(key, value) =>
      Outcome(m[hash(key) := (if hash(key) in m then m[hash(key)].0 else key, value)], OK)
    case Del(key) => Outcome(m - {hash(key)}, if hash(key) in m then TRUE else FALSE)
    case ForEach(None) => Outcome(m, ERROR)
    case ForEach(Some(f)) => if Total(f, m) then Outcome(AllRenewed(m, f), TRUE) else Outcome(m, ERROR)
  }

  /** What a failed foreach can have done: keys stay, every value is the old one or the renewed one,
      and some refused entry is as it was. */
  ghost predicate PartlyRenewed(m: ByHash, f: Callback, r: ByHash) {
    && r.Keys == m.Keys
    && (forall h :: h in m ==>
          r[h].0 == m[h].0 && (r[h].1 == m[h].1 || f(m[h].0, m[h].1) == Some(r[h].1)))
    && (exists h :: h in m && f(m[h].0, m[h].1).None? && r[h] == m[h])
  }

  lemma IndexIs(es: Entries, h: int, i: nat)
    requires Distinct(es) && i < |es| && es[i].internalKey == h
    ensures IndexOf(es, h) == i
  {}

  lemma IndexNone(es: Entries, h: int)
    requires forall i :: 0 <= i < |es| ==> es[i].internalKey != h
    ensures IndexOf(es, h) == |es|
  {}

  /** The list refines the map: same replies for every operation, and the list's view moves as the
      map does; a foreach that fails leaves it partly renewed.  No assumption on collisions. */
  lemma TreeRefinesHashMap(hash: Hash, es: Entries, op: Op)
    requires Distinct(es) && Keyed(hash, es)
    ensures TreeApply(hash, es, op).reply == HashApply(hash, ViewByHash(es), op).reply
    ensures AcceptedByHash(ViewByHash(es), op) ==>
              ViewByHash(TreeApply(hash, es, op).store) == HashApply(hash, ViewByHash(es), op).store
    ensures !AcceptedByHash(ViewByHash(es), op) ==>
              PartlyRenewed(ViewByHash(es), op.vm.value, ViewByHash(TreeApply(hash, es, op).store))
  {
    hide PartlyRenewed, Total;
    match op
    case Get(_) =>
    case Set(key, value) =>
      forall h { SetStores(hash, es, key, value, h); }
      ViewIs(TreeApply(hash, es, op).store, HashApply(hash, ViewByHash(es), op).store);
    case Del(key) =>
      var d := IndexOf(es, hash(key));
      if d < |es| {
        forall h { DelStores(es, d, h); }
        ViewIs(Without(es, d), ViewByHash(es) - {hash(key)});
      } else {
        assert ViewByHash(es) - {hash(key)} == ViewByHash(es);
      }
    case ForEach(None) =>
    case ForEach(Some(f)) =>
      if Total(f, ViewByHash(es)) {
        AllSucceed(es, f);
        forall h { ForEachStores(es, f, h); }
        ViewIs(RenewedUpTo(es, f, |es|), AllRenewed(ViewByHash(es), f));
      } else {
        SomeFails(es, f);
        FailedForEach(es, f, FirstFailure(es, f, 0));
      }
  }

  lemma SomeFails(es: Entries, f: Callback)
    requires !Total(f, ViewByHash(es))
    ensures FirstFailure(es, f, 0) < |es|
  {
    var h :| h in ViewByHash(es) && f(ViewByHash(es)[h].0, ViewByHash(es)[h].1).None?;
    var i := IndexOf(es, h);
    assert f(es[i].key, es[i].value).None?;
  }

  lemma FailedForEach(es: Entries, f: Callback, p: nat)
    requires Distinct(es) && p < |es| && f(es[p].key, es[p].value).None?
    ensures PartlyRenewed(ViewByHash(es), f, ViewByHash(RenewedUpTo(es, f, p)))
  {
    hide IndexOf, RenewedUpTo, ViewByHash;
    var r, m := RenewedUpTo(es, f, p), ViewByHash(es);
    var v := ViewByHash(r);
    forall h ensures IndexOf(r, h) == IndexOf(es, h) { SameIndex(es, r, h); }
    forall h | h in m ensures h in v && v[h].0 == m[h].0 && (v[h].1 == m[h].1 || f(m[h].0, m[h].1) == Some(v[h].1)) {
      var i := IndexOf(es, h);
      assert r[i] == if i < p then Renewed(es[i], f) else es[i];
    }
    assert v.Keys == m.Keys by {
      forall h ensures h in v <==> h in m { assert IndexOf(r, h) == IndexOf(es, h); }
    }
    var bad := es[p].internalKey;
    IndexIs(es, bad, p);
    assert bad in m && f(m[bad].0, m[bad].1).None? && v[bad] == m[bad];
  }

  lemma AllSucceed(es: Entries, f: Callback)
    requires Distinct(es) && Total(f, ViewByHash(es))
    ensures FirstFailure(es, f, 0) == |es|
  {
    forall i | 0 <= i < |es| ensures f(es[i].key, es[i].value).Some? {
      IndexIs(es, es[i].internalKey, i);
    }
  }

  /** One hash at a time: where it is found after the operation, and with what. */
  predicate StoredAt(es: Entries, m: ByHash, h: int) {
    && (IndexOf(es, h) < |es| <==> h in m)
    && (h in m ==> var e := es[IndexOf(es, h)]; m[h] == (e.key, e.value))
  }

  lemma SetStores(hash: Hash, es: Entries, key: Bytes, value: Bytes, h: int)
    requires Distinct(es) && Keyed(hash, es)
    ensures StoredAt(TreeApply(hash, es, Set(key, value)).store,
                     HashApply(hash, ViewByHash(es), Set(key, value)).store, h)
  {
    var r, i := TreeApply(hash, es, Set(key, value)).store, IndexOf(es, h);
    TreeApplyKeeps(hash, es, Set(key, value));
    if i < |es| { IndexIs(r, h, i); }
    else if h == hash(key) { IndexIs(r, h, |es|); }
    else { IndexNone(r, h); }
  }

  lemma DelStores(es: Entries, d: nat, h: int)
    requires Distinct(es) && d < |es|
    ensures StoredAt(Without(es, d), ViewByHash(es) - {es[d].internalKey}, h)
  {
    hide ViewByHash, IndexOf;
    var r, i := Without(es, d), IndexOf(es, h);
    if i < |es| && i != d {
      var k := if i < d then i else i - 1;
      assert r[k] == es[i];
      IndexIs(r, h, k);
    } else {
      forall k | 0 <= k < |r| ensures r[k].internalKey != h {
        assert r[k] == es[if k < d then k else k + 1];
      }
      IndexNone(r, h);
    }
  }

  /** foreach, in full: TRUE exactly when every entry was accepted; otherwise the entries before the
      first refusal have their new values, that entry and all later ones are untouched.  Keys, hashes
      and order never change. */
  lemma ForEachMeaning(hash: Hash, es: Entries, f: Callback)
    ensures var o := TreeApply(hash, es, ForEach(Some(f)));
            exists p: nat :: RenewedBefore(es, f, p, o.store) && o.reply == (if p == |es| then ":1\r\n" else "-ERR\r\n")
  {
    var p: nat := FirstFailure(es, f, 0);
    var r := RenewedUpTo(es, f, p);
    assert forall i :: 0 <= i < p ==> r[i] == Renewed(es[i], f);
    assert TreeApply(hash, es, ForEach(Some(f))) == Outcome(r, if p == |es| then TRUE else ERROR);
    assert RenewedBefore(es, f, p, TreeApply(hash, es, ForEach(Some(f))).store);
  }

  predicate RenewedBefore(es: Entries, f: Callback, p: nat, r: Entries) {
    && p <= |es| == |r|
    && (p < |es| ==> f(es[p].key, es[p].value) == None)
    && (forall i :: 0 <= i < p ==> f(es[i].key, es[i].value).Some? && r[i].value == f(es[i].key, es[i].value).value)
    && (forall i :: p <= i < |es| ==> r[i] == es[i])
    && (forall i :: 0 <= i < |es| ==> r[i].internalKey == es[i].internalKey && r[i].key == es[i].key)
  }

  lemma ForEachStores(es: Entries, f: Callback, h: int)
    requires Total(f, ViewByHash(es))
    ensures StoredAt(RenewedUpTo(es, f, |es|), AllRenewed(ViewByHash(es), f), h)
  {
    hide IndexOf, AllRenewed, RenewedUpTo, ViewByHash;
    var r, i, m := RenewedUpTo(es, f, |es|), IndexOf(es, h), ViewByHash(es);
    SameIndex(es, r, h);
    if i < |es| {
      assert h in m && m[h] == (es[i].key, es[i].value);
      assert r[i] == Renewed(es[i], f);
    }
  }

  lemma {:induction false} SameIndex(a: Entries, b: Entries, h: int)
    requires |a| == |b| && forall k :: 0 <= k < |a| ==> b[k].internalKey == a[k].internalKey
    ensures IndexOf(a, h) == IndexOf(b, h)
  {
    if a != [] { SameIndex(a[1..], b[1..], h); }
  }

  lemma ViewIs(es: Entries, m: ByHash)
    requires forall h :: StoredAt(es, m, h)
    ensures ViewByHash(es) == m
  {
    var v := ViewByHash(es);
    forall h ensures h in v <==> h in m
             ensures h in m ==> v[h] == m[h] {
      assert StoredAt(es, m, h);
    }
  }

  // ---- The table database ----

  type Table = map<Bytes, Bytes>

  /** order lists the keys, each once: how unordered_map happens to be walked. */
  predicate Enumerates(order: seq<Bytes>, keys: set<Bytes>) {
    && (forall i :: 0 <= i < |order| ==> order[i] in keys)
    && (forall k :: k in keys ==> k in order)
    && (forall i, j :: 0 <= i < j < |order| ==> order[i] != order[j])
  }

  /** The first position of the walk, from `from` on, whose callback fails. */
  function FailingStep(m: Table, order: seq<Bytes>, f: Callback, from: nat): (p: nat)
    requires from <= |order| && forall i :: 0 <= i < |order| ==> order[i] in m
    ensures from <= p <= |order|
    ensures forall i :: from <= i < p ==> f(order[i], m[order[i]]).Some?
    ensures p < |order| ==> f(order[p], m[order[p]]).None?
    decreases |order| - from
  {
    if from < |order| && f(order[from], m[order[from]]).Some? then FailingStep(m, order, f, from + 1) else from
  }

  /** The values of the given keys renewed, the others as they were. */
  function TableRenewed(m: Table, keys: seq<Bytes>, f: Callback): (r: Table)
    ensures r.Keys == m.Keys
  {
    map k | k in m :: if k in keys && f(k, m[k]).Some? then f(k, m[k]).value else m[k]
  }

  function TableApply(m: Table, op: Op, order: seq<Bytes>): Outcome<Table>
    requires Enumerates(order, m.Keys)
  {
    match op
    case Get(key) => Outcome(m, if key in m then ToReplyString(m[key]) else NIL)
    case Set(key, value) => Outcome(m[key := value], OK)
    case Del(key) => if key in m then Outcome(m - {key}, TRUE) else Outcome(m, FALSE)
    case ForEach(None) => Outcome(m, ERROR)
    case ForEach(Some(f)) =>
      var p := FailingStep(m, order, f, 0);
      Outcome(TableRenewed(m, order[..p], f), if p == |order| then TRUE else ERROR)
  }

  predicate Succeeds(m: Table, f: Callback) {
    forall k :: k in m ==> f(k, m[k]).Some?
  }

  /** Every entry the callback accepts is left as it is. */
  predicate Idle(m: Table, f: Callback) {
    forall k :: k in m && f(k, m[k]).Some? ==> f(k, m[k]) == Some(m[k])
  }

  lemma ReplyOfForEach(m: Table, f: Callback, order: seq<Bytes>)
    requires Enumerates(order, m.Keys)
    ensures FailingStep(m, order, f, 0) == |order| <==> Succeeds(m, f)
  {
    if FailingStep(m, order, f, 0) == |order| {
      forall k | k in m ensures f(k, m[k]).Some? {
        var i :| 0 <= i < |order| && order[i] == k;
      }
    }
  }

  lemma {:induction false} EnumerationExists(keys: set<Bytes>, first: Option<Bytes>) returns (order: seq<Bytes>)
    requires first.Some? ==> first.value in keys
    ensures Enumerates(order, keys)
    ensures first.Some? ==> order != [] && order[0] == first.value
    decreases keys
  {
    if keys == {} {
      order := [];
    } else {
      var k :| if first.Some? then k == first.value else k in keys;
      var rest := EnumerationExists(keys - {k}, None);
      order := [k] + rest;
    }
  }

  /** A foreach over the table leaves a store that does not depend on the order of the walk exactly
      when no callback fails, or those that do not fail change nothing. */
  lemma OrderIndependence(m: Table, f: Callback)
    ensures (forall a, b :: Enumerates(a, m.Keys) && Enumerates(b, m.Keys) ==>
               TableApply(m, ForEach(Some(f)), a).store == TableApply(m, ForEach(Some(f)), b).store)
            <==> Succeeds(m, f) || Idle(m, f)
  {
    if Succeeds(m, f) || Idle(m, f) {
      forall a, b | Enumerates(a, m.Keys) && Enumerates(b, m.Keys)
        ensures TableApply(m, ForEach(Some(f)), a).store == TableApply(m, ForEach(Some(f)), b).store
      {
        SettledStore(m, f, a);
        SettledStore(m, f, b);
      }
    } else {
      var bad :| bad in m && f(bad, m[bad]).None?;
      var good :| good in m && f(good, m[good]).Some? && f(good, m[good]) != Some(m[good]);
      var a := EnumerationExists(m.Keys, Some(bad));
      var b := EnumerationExists(m.Keys, Some(good));
      assert FailingStep(m, a, f, 0) == 0;
      FirstIsRenewed(m, f, b);
      assert TableApply(m, ForEach(Some(f)), a).store[good] != TableApply(m, ForEach(Some(f)), b).store[good];
    }
  }

  lemma FirstIsRenewed(m: Table, f: Callback, order: seq<Bytes>)
    requires Enumerates(order, m.Keys) && order != [] && f(order[0], m[order[0]]).Some?
    ensures TableApply(m, ForEach(Some(f)), order).store[order[0]] == f(order[0], m[order[0]]).value
  {
    var p := FailingStep(m, order, f, 0);
    assert p >= 1;
    assert order[..p][0] == order[0];
  }

  lemma SettledStore(m: Table, f: Callback, order: seq<Bytes>)
    requires Enumerates(order, m.Keys) && (Succeeds(m, f) || Idle(m, f))
    ensures TableApply(m, ForEach(Some(f)), order).store
            == map k | k in m :: if f(k, m[k]).Some? then f(k, m[k]).value else m[k]
  {
    hide FailingStep;
    ReplyOfForEach(m, f, order);
    assert order[..|order|] == order;
  }

  // ---- When the tree and the table cannot be told apart ----

  predicate InjectiveOn(hash: Hash, keys: set<Bytes>) {
    forall a, b :: a in keys && b in keys && hash(a) == hash(b) ==> a == b
  }

  /** The list and the table hold the same keys and values. */
  predicate Agree(hash: Hash, es: Entries, m: Table) {
    && Distinct(es) && Keyed(hash, es)
    && (forall i :: 0 <= i < |es| ==> es[i].key in m && m[es[i].key] == es[i].value)
    && (forall k :: k in m ==> IndexOf(es, hash(k)) < |es| && es[IndexOf(es, hash(k))].key == k)
  }

  /** The keys an operation names. */
  function KeysOf(op: Op): set<Bytes> {
    if op.ForEach? then {} else {op.key}
  }

  lemma AgreeForEach(hash: Hash, es: Entries, m: Table, f: Callback, order: seq<Bytes>)
    requires Agree(hash, es, m) && Enumerates(order, m.Keys)
    ensures TreeApply(hash, es, ForEach(Some(f))).reply == TableApply(m, ForEach(Some(f)), order).reply
    ensures Succeeds(m, f) ==>
              Agree(hash, TreeApply(hash, es, ForEach(Some(f))).store, TableApply(m, ForEach(Some(f)), order).store)
  {
    var p := FirstFailure(es, f, 0);
    ReplyOfForEach(m, f, order);
    if p == |es| {
      forall k | k in m ensures f(k, m[k]).Some? {
        var e := es[IndexOf(es, hash(k))];
        assert e.key == k && e.value == m[k];
      }
    }
    if Succeeds(m, f) {
      assert order[..|order|] == order;
      AgreeRenewed(hash, es, m, f, order);
    }
  }

  lemma AgreeRenewed(hash: Hash, es: Entries, m: Table, f: Callback, order: seq<Bytes>)
    requires Agree(hash, es, m) && Enumerates(order, m.Keys) && Succeeds(m, f)
    ensures Agree(hash, RenewedUpTo(es, f, |es|), TableRenewed(m, order, f))
  {
    hide IndexOf, RenewedUpTo, TableRenewed;
    var r, t := RenewedUpTo(es, f, |es|), TableRenewed(m, order, f);
    forall i | 0 <= i < |es|
      ensures r[i].internalKey == es[i].internalKey && r[i].key == es[i].key
      ensures es[i].key in t && t[es[i].key] == r[i].value
    {
      assert r[i] == Renewed(es[i], f) && es[i].key in order;
      RenewedAt(m, order, f, es[i].key);
    }
    forall k | k in t ensures IndexOf(r, hash(k)) < |r| && r[IndexOf(r, hash(k))].key == k {
      SameIndex(es, r, hash(k));
    }
  }

  lemma RenewedAt(m: Table, order: seq<Bytes>, f: Callback, k: Bytes)
    requires k in m && k in order && f(k, m[k]).Some?
    ensures k in TableRenewed(m, order, f) && TableRenewed(m, order, f)[k] == f(k, m[k]).value
  {}

  /** Over keys that do not collide, one operation gives both databases the same reply and keeps them
      in agreement.  A foreach that fails part way still answers alike. */
  lemma AgreeStep(hash: Hash, keys: set<Bytes>, es: Entries, m: Table, op: Op, order: seq<Bytes>)
    requires InjectiveOn(hash, keys) && m.Keys <= keys && KeysOf(op) <= keys
    requires Agree(hash, es, m) && Enumerates(order, m.Keys)
    ensures TreeApply(hash, es, op).reply == TableApply(m, op, order).reply
    ensures TableApply(m, op, order).store.Keys <= keys
    ensures op.ForEach? && op.vm.Some? ==> Succeeds(m, op.vm.value) ==>
              Agree(hash, TreeApply(hash, es, op).store, TableApply(m, op, order).store)
    ensures !(op.ForEach? && op.vm.Some?) ==>
              Agree(hash, TreeApply(hash, es, op).store, TableApply(m, op, order).store)
  {
    if op.ForEach? {
      if op.vm.Some? { AgreeForEach(hash, es, m, op.vm.value, order); }
    } else {
      assert op.key in keys;
      SameEntry(hash, keys, es, m, op.key);
      match op
      case Set(key, value) => AgreeSet(hash, keys, es, m, key, value);
      case Del(key) => if key in m { AgreeDel(hash, keys, es, m, key); }
      case _ =>
    }
  }

  lemma SameEntry(hash: Hash, keys: set<Bytes>, es: Entries, m: Table, key: Bytes)
    requires InjectiveOn(hash, keys) && m.Keys <= keys && key in keys && Agree(hash, es, m)
    ensures var i := IndexOf(es, hash(key));
            (key in m <==> i < |es|) && (key in m ==> es[i] == Entry(hash(key), key, m[key]))
  {
    hide IndexOf;
    var i := IndexOf(es, hash(key));
    if i < |es| {
      assert es[i].key in keys && hash(es[i].key) == hash(key);
    }
  }

  lemma OtherKeys(hash: Hash, es: Entries, key: Bytes)
    requires Distinct(es) && Keyed(hash, es)
    ensures forall i :: 0 <= i < |es| && i != IndexOf(es, hash(key)) ==> es[i].key != key
  {}

  lemma AgreeSet(hash: Hash, keys: set<Bytes>, es: Entries, m: Table, key: Bytes, value: Bytes)
    requires InjectiveOn(hash, keys) && m.Keys <= keys && key in keys && Agree(hash, es, m)
    ensures Agree(hash, TreeApply(hash, es, Set(key, value)).store, m[key := value])
  {
    hide IndexOf;
    SameEntry(hash, keys, es, m, key);
    TreeApplyKeeps(hash, es, Set(key, value));
    OtherKeys(hash, es, key);
    var r, t, d := TreeApply(hash, es, Set(key, value)).store, m[key := value], IndexOf(es, hash(key));
    assert forall i :: 0 <= i < |es| && i != d ==> r[i] == es[i];
    assert r[d] == Entry(hash(key), key, value);
    forall k | k in t ensures IndexOf(r, hash(k)) < |r| && r[IndexOf(r, hash(k))].key == k {
      var i := if k == key then d else IndexOf(es, hash(k));
      assert r[i].key == k && r[i].internalKey == hash(k);
      IndexIs(r, hash(k), i);
    }
  }

  lemma AgreeDel(hash: Hash, keys: set<Bytes>, es: Entries, m: Table, key: Bytes)
    requires InjectiveOn(hash, keys) && m.Keys <= keys && key in m && Agree(hash, es, m)
    ensures Agree(hash, TreeApply(hash, es, Del(key)).store, m - {key})
  {
    hide IndexOf;
    TreeApplyKeeps(hash, es, Del(key));
    OtherKeys(hash, es, key);
    var r, t, d := TreeApply(hash, es, Del(key)).store, m - {key}, IndexOf(es, hash(key));
    forall i | 0 <= i < |r| ensures r[i].key in t && t[r[i].key] == r[i].value {
      assert r[i] == es[if i < d then i else i + 1];
    }
    forall k | k in t ensures IndexOf(r, hash(k)) < |r| && r[IndexOf(r, hash(k))].key == k {
      var i := IndexOf(es, hash(k));
      IndexIs(r, hash(k), if i < d then i else i - 1);
    }
  }

  // ---- Whole runs ----

  /** walk(t, keys): how the table happens to be walked at step t of a run. */
  type Walk = (nat, set<Bytes>) -> seq<Bytes>

  ghost predicate GoodWalk(walk: Walk) {
    forall t: nat, keys: set<Bytes> :: Enumerates(walk(t, keys), keys)
  }

  function TreeReplies(hash: Hash, es: Entries, ops: seq<Op>): seq<Bytes>
    decreases |ops|
  {
    if ops == [] then []
    else
      var o := TreeApply(hash, es, ops[0]);
      [o.reply] + TreeReplies(hash, o.store, ops[1..])
  }

  ghost function TableReplies(walk: Walk, t: nat, m: Table, ops: seq<Op>): seq<Bytes>
    requires GoodWalk(walk)
    decreases |ops|
  {
    if ops == [] then []
    else
      var o := TableApply(m, ops[0], walk(t, m.Keys));
      [o.reply] + TableReplies(walk, t + 1, o.store, ops[1..])
  }

  /** The callback, if any, accepts every entry of the table. */
  predicate Accepted(m: Table, op: Op) {
    op.ForEach? && op.vm.Some? ==> Succeeds(m, op.vm.value)
  }

  /** No foreach of the run fails, except perhaps one at its very end. */
  ghost predicate SteadyRun(walk: Walk, t: nat, m: Table, ops: seq<Op>)
    requires GoodWalk(walk)
    decreases |ops|
  {
    |ops| <= 1 ||
    (Accepted(m, ops[0]) && SteadyRun(walk, t + 1, TableApply(m, ops[0], walk(t, m.Keys)).store, ops[1..]))
  }

  /** Any run over keys that do not collide: the two databases give the same replies throughout,
      up to and including the first foreach that fails. */
  lemma {:induction false} RepliesAgree(hash: Hash, keys: set<Bytes>, walk: Walk, t: nat,
                                        es: Entries, m: Table, ops: seq<Op>)
    requires GoodWalk(walk) && InjectiveOn(hash, keys) && Agree(hash, es, m) && m.Keys <= keys
    requires forall i :: 0 <= i < |ops| ==> KeysOf(ops[i]) <= keys
    requires SteadyRun(walk, t, m, ops)
    ensures TreeReplies(hash, es, ops) == TableReplies(walk, t, m, ops)
    decreases |ops|
  {
    hide TreeApply, TableApply, Agree, InjectiveOn;
    if ops != [] {
      var order := walk(t, m.Keys);
      AgreeStep(hash, keys, es, m, ops[0], order);
      if |ops| > 1 {
        RepliesAgree(hash, keys, walk, t + 1,
                     TreeApply(hash, es, ops[0]).store, TableApply(m, ops[0], order).store, ops[1..]);
      }
    }
  }

  // ---- Whole runs, failing foreach or not ----

  /** The keys of the list in its own order: one of the ways in which a map can be walked. */
  function ListOrder(es: Entries): (order: seq<Bytes>)
    ensures |order| == |es| && forall i :: 0 <= i < |es| ==> order[i] == es[i].key
  {
    seq(|es|, i requires 0 <= i < |es| => es[i].key)
  }

  lemma ListOrderEnumerates(hash: Hash, es: Entries, m: Table)
    requires Agree(hash, es, m)
    ensures Enumerates(ListOrder(es), m.Keys)
  {
    hide IndexOf;
    var order := ListOrder(es);
    forall k | k in m ensures k in order { assert order[IndexOf(es, hash(k))] == k; }
    forall i, j | 0 <= i < j < |order| ensures order[i] != order[j] {
      assert es[i].internalKey != es[j].internalKey;
    }
  }

  lemma SameFailure(hash: Hash, es: Entries, m: Table, f: Callback)
    requires Agree(hash, es, m) && Enumerates(ListOrder(es), m.Keys)
    ensures FirstFailure(es, f, 0) == FailingStep(m, ListOrder(es), f, 0)
  {
    var order, p, q := ListOrder(es), FirstFailure(es, f, 0), FailingStep(m, ListOrder(es), f, 0);
    assert forall i :: 0 <= i < |es| ==> order[i] == es[i].key && m[order[i]] == es[i].value;
    assert !(p < q) && !(q < p);
  }

  /** The list and the map renewed up to the same entry. */
  lemma AgreeUpTo(hash: Hash, es: Entries, m: Table, f: Callback, p: nat)
    requires Agree(hash, es, m) && Enumerates(ListOrder(es), m.Keys) && p <= |es|
    requires forall i :: 0 <= i < p ==> f(es[i].key, es[i].value).Some?
    ensures Agree(hash, RenewedUpTo(es, f, p), TableRenewed(m, ListOrder(es)[..p], f))
  {
    hide IndexOf, RenewedUpTo, TableRenewed;
    var r, t, order := RenewedUpTo(es, f, p), TableRenewed(m, ListOrder(es)[..p], f), ListOrder(es);
    forall i | 0 <= i < |es|
      ensures r[i].internalKey == es[i].internalKey && r[i].key == es[i].key
      ensures es[i].key in t && t[es[i].key] == r[i].value
    {
      assert r[i] == if i < p then Renewed(es[i], f) else es[i];
      RenewedPart(m, order, f, p, i);
    }
    forall k | k in t ensures IndexOf(r, hash(k)) < |r| && r[IndexOf(r, hash(k))].key == k {
      SameIndex(es, r, hash(k));
    }
  }

  lemma RenewedPart(m: Table, order: seq<Bytes>, f: Callback, p: nat, i: nat)
    requires Enumerates(order, m.Keys) && p <= |order| && i < |order|
    requires i < p ==> f(order[i], m[order[i]]).Some?
    ensures var k := order[i];
            TableRenewed(m, order[..p], f)[k] == if i < p then f(k, m[k]).value else m[k]
  {
    if i < p { assert order[..p][i] == order[i]; }
  }

  /** Every operation, a foreach that fails included, keeps the two in agreement if the map is walked in
      the order of the list. */
  lemma AgreeInListOrder(hash: Hash, keys: set<Bytes>, es: Entries, m: Table, op: Op)
    requires InjectiveOn(hash, keys) && m.Keys <= keys && KeysOf(op) <= keys && Agree(hash, es, m)
    ensures Enumerates(ListOrder(es), m.Keys)
    ensures var t, p := TreeApply(hash, es, op), TableApply(m, op, ListOrder(es));
            t.reply == p.reply && Agree(hash, t.store, p.store) && p.store.Keys <= keys
  {
    hide Agree, InjectiveOn;
    ListOrderEnumerates(hash, es, m);
    AgreeStep(hash, keys, es, m, op, ListOrder(es));
    if op.ForEach? && op.vm.Some? {
      var f := op.vm.value;
      SameFailure(hash, es, m, f);
      AgreeUpTo(hash, es, m, f, FirstFailure(es, f, 0));
    }
  }

  /** The replies a plain map may give to these operations, if every foreach walks it as it likes. */
  ghost predicate MapRun(m: Table, ops: seq<Op>, replies: seq<Bytes>)
    decreases |ops|
  {
    if ops == [] then replies == []
    else
      replies != [] &&
      exists order | Enumerates(order, m.Keys) ::
        var o := TableApply(m, ops[0], order);
        o.reply == replies[0] && MapRun(o.store, ops[1..], replies[1..])
  }

  /** Any run of the tree database over keys that do not collide, whatever fails on the way, is a run of
      the plain map ... */
  lemma {:induction false} TreeIsMapRun(hash: Hash, keys: set<Bytes>, es: Entries, m: Table, ops: seq<Op>)
    requires InjectiveOn(hash, keys) && Agree(hash, es, m) && m.Keys <= keys
    requires forall i :: 0 <= i < |ops| ==> KeysOf(ops[i]) <= keys
    ensures MapRun(m, ops, TreeReplies(hash, es, ops))
    decreases |ops|
  {
    hide TreeApply, TableApply, Agree, InjectiveOn;
    if ops != [] {
      AgreeInListOrder(hash, keys, es, m, ops[0]);
      var order := ListOrder(es);
      TreeIsMapRun(hash, keys, TreeApply(hash, es, ops[0]).store, TableApply(m, ops[0], order).store, ops[1..]);
      var replies := TreeReplies(hash, es, ops);
      assert replies[1..] == TreeReplies(hash, TreeApply(hash, es, ops[0]).store, ops[1..]);
    }
  }

  /** ... and so is any run of the table. */
  lemma {:induction false} TableIsMapRun(walk: Walk, t: nat, m: Table, ops: seq<Op>)
    requires GoodWalk(walk)
    ensures MapRun(m, ops, TableReplies(walk, t, m, ops))
    decreases |ops|
  {
    hide TableApply;
    if ops != [] {
      var order := walk(t, m.Keys);
      TableIsMapRun(walk, t + 1, TableApply(m, ops[0], order).store, ops[1..]);
      var replies := TableReplies(walk, t, m, ops);
      assert replies[1..] == TableReplies(walk, t + 1, TableApply(m, ops[0], order).store, ops[1..]);
    }
  }

  /** Non-collision is also necessary: two different keys are told apart by a set and a get
      exactly when their hashes differ. */
  lemma CollisionShows(hash: Hash, walk: Walk, a: Bytes, b: Bytes, value: Bytes)
    requires GoodWalk(walk) && a != b
    ensures TreeReplies(hash, [], [Set(a, value), Get(b)]) == TableReplies(walk, 0, map[], [Set(a, value), Get(b)])
            <==> hash(a) != hash(b)
  {
    var ops := [Set(a, value), Get(b)];
    NilIsNotAValue(value);
    if hash(a) != hash(b) {
      RepliesAgree(hash, {a, b}, walk, 0, [], map[], ops);
    } else {
      var m1 := TableApply(map[], ops[0], walk(0, {})).store;
      var e1 := TreeApply(hash, [], ops[0]).store;
      assert e1 == [Entry(hash(a), a, value)];
      assert ops[1..] == [Get(b)];
      assert TreeReplies(hash, e1, ops[1..])[0] == ToReplyString(value);
      assert b !in m1;
      assert TableReplies(walk, 1, m1, ops[1..])[0] == NIL;
      assert TreeReplies(hash, [], ops)[1] == ToReplyString(value);
      var m0: Table := map[];
      assert m0.Keys == {};
      assert TableReplies(walk, 0, map[], ops)[1] == NIL;
    }
  }

  // ---- Whole runs of the tree, collisions or not ----

  /** What the map from hashes may do: after a foreach that fails it is partly renewed. */
  ghost predicate HashStep(hash: Hash, m: ByHash, op: Op, o: Outcome<ByHash>) {
    if AcceptedByHash(m, op) then o == HashApply(hash, m, op)
    else o.reply == ERROR && PartlyRenewed(m, op.vm.value, o.store)
  }

  ghost predicate HashRun(hash: Hash, m: ByHash, ops: seq<Op>, replies: seq<Bytes>)
    decreases |ops|
  {
    if ops == [] then replies == []
    else
      replies != [] &&
      exists o :: HashStep(hash, m, ops[0], o) && o.reply == replies[0]
                  && HashRun(hash, o.store, ops[1..], replies[1..])
  }

  /** Any run of the tree database, collisions or not, is a run of the map from hashes. */
  lemma {:induction false} TreeRunRefines(hash: Hash, es: Entries, ops: seq<Op>)
    requires Distinct(es) && Keyed(hash, es)
    ensures HashRun(hash, ViewByHash(es), ops, TreeReplies(hash, es, ops))
    decreases |ops|
  {
    hide TreeApply, ViewByHash, Distinct, Keyed, AcceptedByHash, PartlyRenewed;
    if ops != [] {
      TreeRefinesHashMap(hash, es, ops[0]);
      TreeApplyKeeps(hash, es, ops[0]);
      var t := TreeApply(hash, es, ops[0]);
      TreeRunRefines(hash, t.store, ops[1..]);
      var replies := TreeReplies(hash, es, ops);
      assert replies[1..] == TreeReplies(hash, t.store, ops[1..]);
      assert HashStep(hash, ViewByHash(es), ops[0], Outcome(ViewByHash(t.store), t.reply)) by {
        RefusedReply(hash, ViewByHash(es), ops[0]);
      }
    }
  }

  lemma RefusedReply(hash: Hash, m: ByHash, op: Op)
    ensures !AcceptedByHash(m, op) ==> HashApply(hash, m, op).reply == ERROR
  {}

  /** The map never has to refuse, except perhaps at the very end of the run. */
  predicate SteadyByHash(hash: Hash, m: ByHash, ops: seq<Op>)
    decreases |ops|
  {
    |ops| <= 1 || (AcceptedByHash(m, ops[0]) && SteadyByHash(hash, HashApply(hash, m, ops[0]).store, ops[1..]))
  }

  function HashReplies(hash: Hash, m: ByHash, ops: seq<Op>): seq<Bytes>
    decreases |ops|
  {
    if ops == [] then []
    else
      var o := HashApply(hash, m, ops[0]);
      [o.reply] + HashReplies(hash, o.store, ops[1..])
  }

  /** Up to and including the first foreach that fails there is only one such run. */
  lemma {:induction false} SteadyTreeRun(hash: Hash, es: Entries, ops: seq<Op>)
    requires Distinct(es) && Keyed(hash, es) && SteadyByHash(hash, ViewByHash(es), ops)
    ensures TreeReplies(hash, es, ops) == HashReplies(hash, ViewByHash(es), ops)
    decreases |ops|
  {
    hide TreeApply, HashApply, ViewByHash, Distinct, Keyed;
    if ops != [] {
      TreeRefinesHashMap(hash, es, ops[0]);
      TreeApplyKeeps(hash, es, ops[0]);
      if |ops| > 1 {
        SteadyTreeRun(hash, TreeApply(hash, es, ops[0]).store, ops[1..]);
      }
    }
  }
}
