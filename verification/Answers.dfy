/** What every command answers, in the very bytes that go on the wire, and what it does to the databases:
    for every state the server can be in, every key, value and script.
 */
module Answers {
  import opened ByteStrings
  import opened Numbers
  import opened Stores
  import opened Dispatch

  // ---- The table ----

  lemma HSet(w: World, s: ServerState, key: Bytes, value: Bytes)
    requires GoodWorld(w)
    ensures Respond(w, s, ["HSET", key, value]) == Response(s.(table := s.table[key := value]), "+OK\r\n")
  {
    hide Respond;
    TableCommand(w, s, ["HSET", key, value]);
  }

  lemma HGet(w: World, s: ServerState, key: Bytes)
    requires GoodWorld(w)
    ensures Respond(w, s, ["HGET", key]) ==
            Response(s, if key in s.table
                        then "$" + Decimal(|s.table[key]|) + "\r\n" + s.table[key] + "\r\n" else "$-1\r\n")
  {
    hide Respond, Decimal;
    TableCommand(w, s, ["HGET", key]);
  }

  lemma HDel(w: World, s: ServerState, key: Bytes)
    requires GoodWorld(w)
    ensures Respond(w, s, ["HDEL", key]) ==
            Response(s.(table := s.table - {key}), if key in s.table then ":1\r\n" else ":0\r\n")
  {
    hide Respond;
    TableCommand(w, s, ["HDEL", key]);
    if key !in s.table { assert s.table - {key} == s.table; }
  }

  /** The callback accepted what was stored under the first p keys of the walk, and refused the next. */
  predicate StoppedAt(m: Table, f: Callback, order: seq<Bytes>, p: nat, r: Table) {
    && Enumerates(order, m.Keys) && p < |order| && r.Keys == m.Keys
    && f(order[p], m[order[p]]).None?
    && (forall i :: 0 <= i < p ==> f(order[i], m[order[i]]) == Some(r[order[i]]))
    && (forall i :: p <= i < |order| ==> r[order[i]] == m[order[i]])
  }

  /** HFOR: an error for a script that does not compile, or that fails on what is stored; then the walk
      stops there. */
  lemma HFor(w: World, s: ServerState, script: Bytes)
    requires GoodWorld(w)
    ensures var r := Respond(w, s, ["HFOR", script]);
            match w.compile(script)
            case None => r == Response(s, "-ERR\r\n")
            case Some(f) =>
              && r.state.tree == s.tree
              && (if forall k :: k in s.table ==> f(k, s.table[k]).Some? then
                    r.reply == ":1\r\n" && r.state.table == map k | k in s.table :: f(k, s.table[k]).value
                  else
                    r.reply == "-ERR\r\n" && exists order, p :: StoppedAt(s.table, f, order, p, r.state.table))
  {
    hide Respond;
    TableCommand(w, s, ["HFOR", script]);
    if w.compile(script).Some? {
      var f, order := w.compile(script).value, w.walk(s.walks, s.table.Keys);
      ReplyOfForEach(s.table, f, order);
      if Succeeds(s.table, f) {
        SettledStore(s.table, f, order);
      } else {
        StopsOnTheWay(s.table, f, order, FailingStep(s.table, order, f, 0));
      }
    }
  }

  lemma StopsOnTheWay(m: Table, f: Callback, order: seq<Bytes>, p: nat)
    requires Enumerates(order, m.Keys) && p < |order| && f(order[p], m[order[p]]).None?
    requires forall i :: 0 <= i < p ==> f(order[i], m[order[i]]).Some?
    ensures StoppedAt(m, f, order, p, TableRenewed(m, order[..p], f))
  {
    hide TableRenewed;
    forall i | 0 <= i < |order|
      ensures TableRenewed(m, order[..p], f)[order[i]]
           == if i < p then f(order[i], m[order[i]]).value else m[order[i]]
    {
      RenewedPart(m, order, f, p, i);
    }
  }

  // ---- The tree ----

  /** A key whose hash is not in the tree. */
  lemma AtAbsent(w: World, s: ServerState, key: Bytes, value: Bytes)
    requires GoodWorld(w)
    requires forall i :: 0 <= i < |s.tree| ==> s.tree[i].internalKey != w.hash(key)
    ensures Respond(w, s, ["ATSET", key, value]) ==
            Response(s.(tree := s.tree + [Entry(w.hash(key), key, value)]), "+OK\r\n")
    ensures Respond(w, s, ["ATGET", key]) == Response(s, "$-1\r\n")
    ensures Respond(w, s, ["ATDEL", key]) == Response(s, ":0\r\n")
  {
    hide Respond;
    TreeCommand(w, s, ["ATSET", key, value]);
    TreeCommand(w, s, ["ATGET", key]);
    TreeCommand(w, s, ["ATDEL", key]);
    IndexNone(s.tree, w.hash(key));
  }

  /** A key whose hash is that of entry i, whatever that entry's own key is. */
  lemma AtPresent(w: World, s: ServerState, key: Bytes, value: Bytes, i: nat)
    requires GoodWorld(w) && GoodState(w, s)
    requires i < |s.tree| && s.tree[i].internalKey == w.hash(key)
    ensures var e := s.tree[i];
            && Respond(w, s, ["ATSET", key, value]) ==
               Response(s.(tree := s.tree[..i] + [Entry(e.internalKey, e.key, value)] + s.tree[i + 1..]), "+OK\r\n")
            && Respond(w, s, ["ATGET", key]) ==
               Response(s, "$" + Decimal(|e.value|) + "\r\n" + e.value + "\r\n")
            && Respond(w, s, ["ATDEL", key]) == Response(s.(tree := s.tree[..i] + s.tree[i + 1..]), ":1\r\n")
  {
    hide Respond, Decimal, IndexOf;
    TreeCommand(w, s, ["ATSET", key, value]);
    TreeCommand(w, s, ["ATGET", key]);
    TreeCommand(w, s, ["ATDEL", key]);
    IndexIs(s.tree, w.hash(key), i);
    var e := s.tree[i].(value := value);
    assert s.tree[i := e] == s.tree[..i] + [e] + s.tree[i + 1..];
  }

  /** ATFOR walks the entries in the order of their insertion. */
  lemma AtFor(w: World, s: ServerState, script: Bytes)
    requires GoodWorld(w)
    ensures var r := Respond(w, s, ["ATFOR", script]);
            match w.compile(script)
            case None => r == Response(s, "-ERR\r\n")
            case Some(f) =>
              && r.state.table == s.table
              && exists p: nat ::
                   RenewedBefore(s.tree, f, p, r.state.tree)
                   && r.reply == (if p == |s.tree| then ":1\r\n" else "-ERR\r\n")
  {
    hide Respond, TreeApply, RenewedBefore;
    TreeCommand(w, s, ["ATFOR", script]);
    if w.compile(script).Some? {
      ForEachMeaning(w.hash, s.tree, w.compile(script).value);
    } else {
      NoScript(w.hash, s.tree);
    }
  }

  lemma NoScript(hash: Hash, es: Entries)
    ensures TreeApply(hash, es, ForEach(None)) == Outcome(es, "-ERR\r\n")
  {}

  // ---- The commands without a database ----

  lemma Ping(w: World, s: ServerState)
    requires GoodWorld(w)
    ensures Respond(w, s, ["PING"]) == Response(s, "+PONG\r\n")
  {
    CommandTableIs("PING");
    hide COMMANDS, Lines;
  }

  /** VERSION takes any arguments, and is verbose for the one word VERBOSE alone. */
  lemma VersionAnswer(w: World, s: ServerState, args: Command)
    requires GoodWorld(w) && args[0] == "VERSION"
    ensures Respond(w, s, args) ==
            Response(s, "+" + w.version(args == ["VERSION", "VERBOSE"]) + "\r\n")
  {
    CommandTableIs("VERSION");
    hide COMMANDS, Lines;
    assert args == ["VERSION", "VERBOSE"] <==> |args| == 2 && args[1] == "VERBOSE";
  }

  /** A text cut at every LF. */
  function CutLines(text: Bytes): seq<Bytes>
    decreases |text|
  {
    if text == "" then []
    else
      var lf := FindFrom(text, 0, '\n');
      if lf == |text| then [text] else [text[..lf]] + CutLines(text[lf + 1..])
  }

  lemma {:induction false} CutLinesOf(names: seq<Bytes>, more: Bytes)
    requires forall i :: 0 <= i < |names| ==> '\n' !in names[i]
    ensures CutLines(Lines(names) + more) == names + CutLines(more)
    decreases |names|
  {
    if names == [] {
      assert Lines(names) + more == more && names + CutLines(more) == CutLines(more);
    } else {
      var n := |names| - 1;
      var init, last := names[..n], names[n];
      CutLinesOf(init, last + "\n" + more);
      FirstLine(last, more);
      assert Lines(names) + more == Lines(init) + (last + "\n" + more);
      assert init + ([last] + CutLines(more)) == names + CutLines(more);
    }
  }

  lemma FirstLine(line: Bytes, more: Bytes)
    requires '\n' !in line
    ensures CutLines(line + "\n" + more) == [line] + CutLines(more)
  {
    var text := line + "\n" + more;
    forall k | 0 <= k < |line| ensures text[k] != '\n' {
      assert text[k] == line[k] && line[k] in line;
    }
    FindFromIs(text, 0, '\n', |line|);
    assert text[..|line|] == line && text[|line| + 1..] == more;
  }

  const NAMES: set<Bytes> := {"COMMANDS", "PING", "VERSION", "HGET", "HSET", "HDEL", "HFOR",
                              "ATGET", "ATSET", "ATDEL", "ATFOR"}

  /** COMMANDS answers with a text whose lines, each ended by LF, are the eleven names, each once. */
  lemma CommandsListsExactly(w: World, s: ServerState) returns (text: Bytes)
    requires GoodWorld(w)
    ensures Respond(w, s, ["COMMANDS"]) == Response(s, "$" + Decimal(|text|) + "\r\n" + text + "\r\n")
    ensures text != "" && text[|text| - 1] == '\n'
    ensures Enumerates(CutLines(text), NAMES)
  {
    text := Lines(w.listing);
    CommandsReply(w, s);
    NamesAre();
    hide Respond, Decimal, COMMANDS, Lines, CutLines, NAMES;
    forall i | 0 <= i < |w.listing| ensures '\n' !in w.listing[i] { NameHasNoLF(w.listing[i]); }
    assert w.listing != [] by { assert "PING" in w.listing; }
    ListedText(w.listing);
  }

  lemma ListedText(names: seq<Bytes>)
    requires names != [] && forall i :: 0 <= i < |names| ==> '\n' !in names[i]
    ensures var text := Lines(names); CutLines(text) == names && text != "" && text[|text| - 1] == '\n'
  {
    CutLinesOf(names, "");
    assert Lines(names) + "" == Lines(names) && names + [] == names;
  }

  lemma NameHasNoLF(name: Bytes)
    requires name in NAMES
    ensures '\n' !in name
  {}

  lemma NamesAre()
    ensures COMMANDS.Keys == NAMES && "PING" in NAMES
  {}

  // ---- Refusals ----

  /** How many arguments a command takes. */
  function Arity(name: Bytes): nat {
    if name == "COMMANDS" || name == "PING" then 0
    else if name == "HSET" || name == "ATSET" then 2
    else 1
  }

  lemma Unknown(w: World, s: ServerState, args: Command)
    requires GoodWorld(w)
    requires args[0] !in NAMES
    ensures Respond(w, s, args) == Response(s, "-ERR " + args[0] + " is not implemented\r\n")
  {
    NamesAre();
    hide COMMANDS, Lines, NAMES;
    assert " is not implemented" + "\r\n" == " is not implemented\r\n";
    Joined("-ERR ", args[0], " is not implemented", "\r\n");
  }

  lemma Joined(a: Bytes, b: Bytes, c: Bytes, e: Bytes)
    ensures a + (b + c) + e == a + b + (c + e)
  {}

  lemma WrongArity(w: World, s: ServerState, args: Command)
    requires GoodWorld(w)
    requires args[0] in NAMES && args[0] != "VERSION"
    requires |args| - 1 != Arity(args[0])
    ensures Respond(w, s, args) ==
            Response(s, "-ERR " + args[0] + " malformed number of arguments ("
                        + Decimal(|args| - 1) + " vs " + Decimal(Arity(args[0])) + ")\r\n")
  {
    ArityInTable(args[0]);
    hide COMMANDS, Arity, MalformedReply;
    FoundReadsInside(args);
    MalformedText(args[0], |args| - 1, Arity(args[0]));
  }

  lemma MalformedText(name: Bytes, input: nat, expected: nat)
    ensures MalformedReply(name, input, expected)
         == "-ERR " + name + " malformed number of arguments (" + Decimal(input) + " vs " + Decimal(expected) + ")\r\n"
  {
    hide Decimal;
    assert ")" + "\r\n" == ")\r\n";
    Joined6("-ERR ", name, " malformed number of arguments (", Decimal(input), " vs ", Decimal(expected), ")", "\r\n");
  }

  lemma ArityInTable(name: Bytes)
    requires name in NAMES && name != "VERSION"
    ensures name in COMMANDS && COMMANDS[name].numberOfArguments == Arity(name)
  {}

  lemma Joined6(a: Bytes, b: Bytes, c: Bytes, e: Bytes, f: Bytes, g: Bytes, h: Bytes, i: Bytes)
    ensures a + (b + c + e + f + g + h) + i == a + b + c + e + f + g + (h + i)
  {}
}
