/** What a connection executes, as a fold of the one-shot parser over the chunks it receives,
    and why it does not matter how a request is cut.
 */
module Streams {
  import opened ByteStrings
  import opened Numbers
  import opened Splitting
  import opened Protocol
  import opened InlineRequests

  /** All a handler remembers: the bytes since its last reset, and what it has executed. */
  datatype Progress = Progress(pending: Bytes, executed: seq<Command>)

  const START := Progress("", [])

  function Feed(p: Progress, chunk: Bytes): Progress {
    match Parse(p.pending + chunk)
    case NeedMore(_) => Progress(p.pending + chunk, p.executed)
    case Execute(args, _) => Progress("", p.executed + [args])
    case _ => Progress("", p.executed)
  }

  function FeedAll(p: Progress, chunks: seq<Bytes>): Progress
    decreases |chunks|
  {
    if chunks == [] then p else FeedAll(Feed(p, chunks[0]), chunks[1..])
  }

  /** No chunk drives the parser into undefined behaviour. */
  predicate Defined(p: Progress, chunks: seq<Bytes>)
    decreases |chunks|
  {
    chunks == [] || (!Parse(p.pending + chunks[0]).Undefined? && Defined(Feed(p, chunks[0]), chunks[1..]))
  }

  lemma {:induction false} FeedAllAppend(p: Progress, a: seq<Bytes>, b: seq<Bytes>)
    ensures FeedAll(p, a + b) == FeedAll(FeedAll(p, a), b)
    ensures Defined(p, a + b) <==> Defined(p, a) && Defined(FeedAll(p, a), b)
    decreases |a|
  {
    if a == [] {
      assert a + b == b;
    } else {
      assert (a + b)[1..] == a[1..] + b;
      FeedAllAppend(Feed(p, a[0]), a[1..], b);
    }
  }

  /** The whole of a request agrees with any part of it that already settles the matter. */
  lemma PartSettles(part: Bytes, rest: Bytes)
    requires part + rest != "" && (part + rest)[0] == '*'
    ensures Parse(part + rest).NeedMore? ==> Parse(part).NeedMore?
    ensures !Parse(part).NeedMore? ==> Parse(part) == Parse(part + rest)
  {
    if part != "" {
      assert (part + rest)[0] == part[0];
      ParseExtend(part, rest);
    }
  }

  /** Chunk number j is the one that settles the verdict v, with nothing executed before. */
  predicate SettledAt(start: Progress, chunks: seq<Bytes>, j: nat, v: Verdict) {
    && j < |chunks|
    && FeedAll(start, chunks[..j]) == Progress(start.pending + Flatten(chunks[..j]), start.executed)
    && Parse(start.pending + Flatten(chunks[..j])).NeedMore?
    && Parse(start.pending + Flatten(chunks[..j]) + chunks[j]) == v
  }

  /** Chunk invariance.  However a stream that starts with '*' is cut, well-formed or not, the handler
      asks for more exactly while the one-shot parser of the whole does, and otherwise gives the
      one-shot verdict at the first chunk that settles it. */
  lemma {:induction false} ChunkInvariance(start: Progress, chunks: seq<Bytes>) returns (j: nat)
    requires Parse(start.pending).NeedMore?
    requires var whole := start.pending + Flatten(chunks); whole == "" || whole[0] == '*'
    ensures var v := Parse(start.pending + Flatten(chunks));
            if v.NeedMore? then FeedAll(start, chunks) == Progress(start.pending + Flatten(chunks), start.executed)
            else SettledAt(start, chunks, j, v)
    decreases |chunks|
  {
    hide Parse;
    var whole := start.pending + Flatten(chunks);
    j := 0;
    if chunks == [] {
      assert whole == start.pending;
    } else {
      var part, rest := start.pending + chunks[0], Flatten(chunks[1..]);
      assert part + rest == whole;
      if whole != "" { PartSettles(part, rest); }
      if Parse(part).NeedMore? {
        var k := ChunkInvariance(Feed(start, chunks[0]), chunks[1..]);
        j := k + 1;
        if !Parse(whole).NeedMore? {
          assert chunks[..j][1..] == chunks[1..][..k];
          assert start.pending + Flatten(chunks[..j]) == part + Flatten(chunks[1..][..k]);
        }
      } else {
        assert start.pending + Flatten(chunks[..0]) + chunks[0] == part;
        assert start.pending + Flatten(chunks[..0]) == start.pending;
      }
    }
  }

  /** Two ways of cutting the same stream settle the same verdict, or neither settles any. */
  lemma CutsAgree(a: seq<Bytes>, b: seq<Bytes>) returns (i: nat, j: nat)
    requires Flatten(a) == Flatten(b) && Flatten(a) != "" && Flatten(a)[0] == '*'
    ensures if Parse(Flatten(a)).NeedMore? then FeedAll(START, a) == FeedAll(START, b) == Progress(Flatten(a), [])
            else SettledAt(START, a, i, Parse(Flatten(a))) && SettledAt(START, b, j, Parse(Flatten(a)))
  {
    assert START.pending + Flatten(a) == Flatten(a);
    i := ChunkInvariance(START, a);
    j := ChunkInvariance(START, b);
  }

  lemma {:induction false} EmptyChunks(p: Progress, chunks: seq<Bytes>)
    requires p.pending == "" && Flatten(chunks) == ""
    ensures FeedAll(p, chunks) == p && Defined(p, chunks)
  {
    if chunks != [] {
      assert chunks[0] == "" && p.pending + chunks[0] == "";
      EmptyChunks(p, chunks[1..]);
    }
  }

  /** One encoded command in any chunks: executed once, by the chunk that brings its last byte. */
  lemma OneCommand(executed: seq<Command>, args: Command, chunks: seq<Bytes>)
    requires Encodable(args) && Flatten(chunks) == Encode(args)
    ensures FeedAll(Progress("", executed), chunks) == Progress("", executed + [args])
    ensures Defined(Progress("", executed), chunks)
    ensures forall k :: 0 <= k <= |chunks| && |Flatten(chunks[..k])| < |Encode(args)| ==>
              FeedAll(Progress("", executed), chunks[..k]) == Progress(Flatten(chunks[..k]), executed)
  {
    hide Parse;
    forall k | 0 <= k <= |chunks| && |Flatten(chunks[..k])| < |Encode(args)|
      ensures FeedAll(Progress("", executed), chunks[..k]) == Progress(Flatten(chunks[..k]), executed)
    {
      ProperPart(executed, args, chunks, k);
    }
    FullCommand(executed, args, chunks);
  }

  lemma ProperPart(executed: seq<Command>, args: Command, chunks: seq<Bytes>, k: nat)
    requires Encodable(args) && Flatten(chunks) == Encode(args)
    requires k <= |chunks| && |Flatten(chunks[..k])| < |Encode(args)|
    ensures Parse(Flatten(chunks[..k])).NeedMore?
    ensures FeedAll(Progress("", executed), chunks[..k]) == Progress(Flatten(chunks[..k]), executed)
    ensures Defined(Progress("", executed), chunks[..k])
    decreases k
  {
    hide Parse, Encode, Encodable;
    var part := Flatten(chunks[..k]);
    FlattenAppend(chunks[..k], chunks[k..]);
    assert chunks[..k] + chunks[k..] == chunks;
    RoundTrip(args, "");
    assert Encode(args)[..|part|] == part;
    if k > 0 {
      assert chunks[..k] == chunks[..k - 1] + [chunks[k - 1]];
      FlattenAppend(chunks[..k - 1], [chunks[k - 1]]);
      assert Flatten([chunks[k - 1]]) == chunks[k - 1];
      ProperPart(executed, args, chunks, k - 1);
      FeedAllAppend(Progress("", executed), chunks[..k - 1], [chunks[k - 1]]);
      LastChunk(FeedAll(Progress("", executed), chunks[..k - 1]), chunks[k - 1]);
    }
  }

  lemma LastChunk(p: Progress, chunk: Bytes)
    ensures FeedAll(p, [chunk]) == Feed(p, chunk)
    ensures Defined(p, [chunk]) <==> !Parse(p.pending + chunk).Undefined?
  {
    assert [chunk][1..] == [];
    assert FeedAll(Feed(p, chunk), []) == Feed(p, chunk);
  }

  lemma EncodeStart(args: Command)
    ensures Encode(args) != "" && Encode(args)[0] == '*'
    ensures Parse("").NeedMore?
  {}

  lemma FullCommand(executed: seq<Command>, args: Command, chunks: seq<Bytes>)
    requires Encodable(args) && Flatten(chunks) == Encode(args)
    ensures FeedAll(Progress("", executed), chunks) == Progress("", executed + [args])
    ensures Defined(Progress("", executed), chunks)
  {
    hide Parse, Encode, Encodable;
    var start, e := Progress("", executed), Encode(args);
    EncodeStart(args);
    RoundTrip(args, "");
    assert e + "" == e;
    assert start.pending + Flatten(chunks) == e;
    var j := ChunkInvariance(start, chunks);
    var part := Flatten(chunks[..j]);
    assert start.pending + part == part;
    var p := FeedAll(start, chunks[..j]);
    assert Parse(p.pending + chunks[j]) == Execute(args, |e|);
    // the settling chunk brings the last byte, so only empty chunks follow it
    assert chunks == chunks[..j] + ([chunks[j]] + chunks[j + 1..]);
    FlattenAppend(chunks[..j], [chunks[j]] + chunks[j + 1..]);
    assert Flatten([chunks[j]] + chunks[j + 1..]) == chunks[j] + Flatten(chunks[j + 1..]);
    assert |part + chunks[j]| >= |e|;
    assert Flatten(chunks[j + 1..]) == "";
    ProperPart(executed, args, chunks, j);
    FeedAllAppend(start, chunks[..j], [chunks[j]] + chunks[j + 1..]);
    FeedAllAppend(p, [chunks[j]], chunks[j + 1..]);
    LastChunk(p, chunks[j]);
    EmptyChunks(Feed(p, chunks[j]), chunks[j + 1..]);
  }

  function Join(groups: seq<seq<Bytes>>): seq<Bytes> {
    if groups == [] then [] else groups[0] + Join(groups[1..])
  }

  /** One command on its way: encoded and cut at will, or as an inline request in one chunk. */
  ghost predicate Sent(args: Command, group: seq<Bytes>) {
    (Encodable(args) && Flatten(group) == Encode(args)) || (|group| == 1 && InlineLine(args, group[0]))
  }

  /** A client that waits for its replies: each command ends on a chunk boundary. */
  ghost predicate Conversation(commands: seq<Command>, groups: seq<seq<Bytes>>) {
    |groups| == |commands| && forall i :: 0 <= i < |commands| ==> Sent(commands[i], groups[i])
  }

  lemma SentExecutes(executed: seq<Command>, args: Command, group: seq<Bytes>)
    requires Sent(args, group)
    ensures FeedAll(Progress("", executed), group) == Progress("", executed + [args])
    ensures Defined(Progress("", executed), group)
  {
    hide Encode, Encodable, Parse, FeedAll, Defined, InlineLine;
    if Encodable(args) && Flatten(group) == Encode(args) {
      FullCommand(executed, args, group);
    } else {
      InlineLineExecutes(args, group[0]);
      assert group == [group[0]] && "" + group[0] == group[0];
      LastChunk(Progress("", executed), group[0]);
    }
  }

  /** Any number of commands, bulk requests cut at will and inline requests in one chunk mixed: all
      executed, once, in order. */
  lemma {:induction false} ConversationExecutes(executed: seq<Command>, commands: seq<Command>, groups: seq<seq<Bytes>>)
    requires Conversation(commands, groups)
    ensures FeedAll(Progress("", executed), Join(groups)) == Progress("", executed + commands)
    ensures Defined(Progress("", executed), Join(groups))
    decreases |commands|
  {
    hide Feed, Sent;
    var start := Progress("", executed);
    if commands == [] {
      assert executed + commands == executed;
    } else {
      SentExecutes(executed, commands[0], groups[0]);
      ConversationExecutes(executed + [commands[0]], commands[1..], groups[1..]);
      FeedAllAppend(start, groups[0], Join(groups[1..]));
      assert executed + [commands[0]] + commands[1..] == executed + commands;
    }
  }

  function EncodeAll(commands: seq<Command>): Bytes {
    if commands == [] then "" else Encode(commands[0]) + EncodeAll(commands[1..])
  }

  /** Commands sent together in one chunk: the first is executed and the rest are dropped, so a
      pipeline survives exactly when it is no pipeline. */
  lemma PipelineExact(commands: seq<Command>)
    requires forall i :: 0 <= i < |commands| ==> Encodable(commands[i])
    ensures FeedAll(START, [EncodeAll(commands)]) ==
            Progress("", if commands == [] then [] else [commands[0]])
    ensures FeedAll(START, [EncodeAll(commands)]).executed == commands <==> |commands| <= 1
  {
    hide Parse, Encode, Encodable, Feed, FeedAll;
    var all := EncodeAll(commands);
    LastChunk(START, all);
    if commands == [] {
      EmptyFeed(START);
    } else {
      RoundTrip(commands[0], EncodeAll(commands[1..]));
      FirstOfMany(commands);
      assert |commands| == 1 ==> commands == [commands[0]];
    }
  }

  lemma EmptyFeed(p: Progress)
    requires p.pending == ""
    ensures Feed(p, "") == p
  {
    assert p.pending + "" == "";
  }

  /** The first of several requests in a chunk is the one that is executed. */
  lemma FirstOfMany(commands: seq<Command>)
    requires commands != [] && Parse(EncodeAll(commands)).Execute?
    ensures Feed(START, EncodeAll(commands)) == Progress("", [Parse(EncodeAll(commands)).args])
  {
    hide Parse;
    assert START.pending + EncodeAll(commands) == EncodeAll(commands);
    var args := Parse(EncodeAll(commands)).args;
    assert [] + [args] == [args];
  }

  /** The same in any chunks: the first command is executed by the chunk with its last byte, whatever else
      that chunk holds is dropped, and the chunks after it find nothing buffered. */
  lemma PipelineInChunks(commands: seq<Command>, chunks: seq<Bytes>) returns (j: nat)
    requires commands != [] && (forall i :: 0 <= i < |commands| ==> Encodable(commands[i]))
    requires Flatten(chunks) == EncodeAll(commands)
    ensures j < |chunks|
    ensures |Flatten(chunks[..j])| < |Encode(commands[0])| <= |Flatten(chunks[..j + 1])|
    ensures FeedAll(START, chunks[..j]) == Progress(Flatten(chunks[..j]), [])
    ensures FeedAll(START, chunks[..j + 1]) == Progress("", [commands[0]])
    ensures FeedAll(START, chunks) == FeedAll(Progress("", [commands[0]]), chunks[j + 1..])
  {
    hide Parse, Encode, Encodable, Feed, FeedAll;
    var e, more := Encode(commands[0]), EncodeAll(commands[1..]);
    EncodeStart(commands[0]);
    RoundTrip(commands[0], more);
    assert START.pending + Flatten(chunks) == e + more;
    j := ChunkInvariance(START, chunks);
    var part := Flatten(chunks[..j]);
    assert START.pending + part == part;
    assert chunks[..j + 1] == chunks[..j] + [chunks[j]];
    FlattenAppend(chunks[..j], [chunks[j]]);
    assert Flatten([chunks[j]]) == chunks[j];
    if |part| >= |e| {
      FlattenAppend(chunks[..j], chunks[j..]);
      assert chunks == chunks[..j] + chunks[j..];
      StartsWith(e, more, part, Flatten(chunks[j..]));
      RoundTrip(commands[0], part[|e|..]);
    }
    FeedAllAppend(START, chunks[..j], [chunks[j]]);
    LastChunk(Progress(part, []), chunks[j]);
    CompletedBy(part, chunks[j], commands[0]);
    FeedAllAppend(START, chunks[..j + 1], chunks[j + 1..]);
    assert chunks == chunks[..j + 1] + chunks[j + 1..];
  }

  lemma StartsWith(e: Bytes, more: Bytes, part: Bytes, rest: Bytes)
    requires e + more == part + rest && |part| >= |e|
    ensures part == e + part[|e|..]
  {
    assert (e + more)[..|e|] == e && (part + rest)[..|e|] == part[..|e|];
  }

  lemma CompletedBy(pending: Bytes, chunk: Bytes, args: Command)
    requires Parse(pending + chunk).Execute? && Parse(pending + chunk).args == args
    ensures Feed(Progress(pending, []), chunk) == Progress("", [args])
  {
    hide Parse;
    assert [] + [args] == [args];
  }

  /** The request for one word, up to its data. */
  function Announced(word: Bytes): Bytes {
    "*" + Decimal(|[word]|) + CRLF + ("$" + Decimal(|word|) + CRLF)
  }

  /** So cutting between the commands is enough for all to be executed.  It is not necessary: a word sent
      twice, the second time cut right before its data, is executed twice, for what is left of the
      second request is an inline request for the same word. */
  lemma UnalignedCutServesBoth(word: Bytes) returns (first: Bytes, second: Bytes)
    requires Words([word]) && word != "" && word[0] != '*' && LengthOk(|word|)
    ensures first + second == EncodeAll([[word], [word]]) && first != Encode([word])
    ensures FeedAll(START, [first, second]) == Progress("", [[word], [word]])
    ensures Defined(START, [first, second])
  {
    var e, front := Encode([word]), Announced(word);
    first, second := e + front, word + CRLF;
    OneWordEncoded(word);
    EncodedTwice([word]);
    assert first + second == e + (front + second);
    RoundTrip([word], front);
    WordLine(word);
    hide Parse, Feed, FeedAll, Defined, Encode;
    assert front != "";
    Fed(first);
    assert "" + second == second && [[word]] + [[word]] == [[word], [word]];
    TwoChunks(first, second);
    NextExecutes(Progress("", [[word]]), second, [word]);
  }

  lemma NextExecutes(p: Progress, chunk: Bytes, args: Command)
    requires p.pending == "" && Parse(chunk).Execute? && Parse(chunk).args == args
    ensures Feed(p, chunk) == Progress("", p.executed + [args])
  {
    hide Parse;
    assert "" + chunk == chunk;
  }

  lemma OneWordEncoded(word: Bytes)
    ensures Encode([word]) == Announced(word) + (word + CRLF)
  {
    hide Decimal;
    var count, length := "*" + Decimal(|[word]|) + CRLF, "$" + Decimal(|word|) + CRLF;
    OneBulkOnly(word);
    Regroup(count, length, word, CRLF);
  }

  lemma OneBulkOnly(word: Bytes)
    ensures BulkAll([word]) == Bulk(word)
  {
    hide Bulk;
    assert [word][1..] == [];
    assert BulkAll([word]) == Bulk(word) + "";
  }

  lemma Regroup(a: Bytes, b: Bytes, c: Bytes, e: Bytes)
    ensures a + (b + c + e) == a + b + (c + e)
  {}

  lemma EncodedTwice(args: Command)
    ensures EncodeAll([args, args]) == Encode(args) + Encode(args)
  {
    hide Encode;
    assert [args, args][1..] == [args] && [args][1..] == [];
    assert EncodeAll([args]) == Encode(args) + "";
  }

  lemma WordLine(word: Bytes)
    requires Words([word]) && word != "" && word[0] != '*'
    ensures Parse(word + CRLF) == Execute([word], |word| + 2)
  {
    hide Parse;
    assert [word][1..] == [] && [0][1..] == [];
    assert Spaced([word], [0], ' ') == word + Run(' ', 0) + "" && Run(' ', 0) == "";
    assert Line([word], [0], true) == word + CRLF;
    InlineLineExecutes([word], word + CRLF);
  }

  // ---- Inline requests do not survive cutting ----

  /** What a chunk executes when nothing is buffered. */
  function Alone(chunk: Bytes): seq<Command> {
    if Parse(chunk).Execute? then [Parse(chunk).args] else []
  }

  lemma FeedAlone(executed: seq<Command>, chunk: Bytes)
    ensures Feed(Progress("", executed), chunk).executed == executed + Alone(chunk)
    ensures !Parse(chunk).NeedMore? ==> Feed(Progress("", executed), chunk).pending == ""
  {
    hide Parse;
    assert "" + chunk == chunk;
  }

  /** Nothing of an inline chunk is kept for the next one: each executes what it would alone. */
  lemma InlineChunksStandAlone(part: Bytes, rest: Bytes)
    requires part != "" && part[0] != '*'
    ensures FeedAll(START, [part, rest]).executed == Alone(part) + Alone(rest)
    ensures Defined(START, [part, rest]) <==> !Parse(part).Undefined? && !Parse(rest).Undefined?
  {
    hide Parse, Alone, Feed, FeedAll, Defined;
    InlineSettles(part);
    FeedAlone([], part);
    assert [] + Alone(part) == Alone(part);
    var p := Feed(START, part);
    assert p == Progress("", Alone(part));
    FeedAlone(Alone(part), rest);
    TwoChunks(part, rest);
    assert "" + rest == rest;
  }

  lemma InlineSettles(b: Bytes)
    requires b != "" && b[0] != '*'
    ensures !Parse(b).NeedMore?
  {}

  lemma TwoChunks(part: Bytes, rest: Bytes)
    ensures FeedAll(START, [part, rest]) == Feed(Feed(START, part), rest)
    ensures Defined(START, [part, rest]) <==>
            !Parse(part).Undefined? && !Parse(Feed(START, part).pending + rest).Undefined?
  {
    hide Parse, Feed;
    assert [part, rest] == [part] + [rest] && START.pending + part == part;
    FeedAllAppend(START, [part], [rest]);
    LastChunk(START, part);
    LastChunk(Feed(START, part), rest);
  }

  /** A line that is dropped when it arrives with nothing buffered: it begins with a space, is empty, or
      announces a number of arguments that is not positive. */
  predicate Refused(b: Bytes)
    requires b != ""
  {
    b[0] == ' ' || b == "\r\n" ||
    (|b| >= 2 && b[0] == '*' && ToInt(b[..|b| - 1]).Value? && ToInt(b[..|b| - 1]).value <= 0)
  }

  lemma RefusedExact(b: Bytes)
    requires OneLine(b)
    ensures Parse(b).Reject? <==> Refused(b)
  {
    if b[0] == '*' {
      HeaderAlone(b);
    } else {
      assert b[|b| - 1] in b;
      InlineOutcomes(b);
      assert b[0] == '\r' && |b| > 1 && b[1] == '\n' <==> b == "\r\n";
    }
  }

  /** A header without what it announces: undefined, refused, or waiting; never executed. */
  lemma HeaderAlone(b: Bytes)
    requires OneLine(b) && b[0] == '*'
    ensures |b| >= 2
    ensures match ToInt(b[..|b| - 1])
            case Overflow => Parse(b).Undefined?
            case Value(n) => if n <= 0 then Parse(b).Reject? else Parse(b).NeedMore?
  {
    hide ToInt;
    assert FindFrom(b, |b|, '\n') == |b|;
  }

  /** Cutting a one-line inline request in two is harmless, in all that the handler has executed, all it
      remembers, and whether it is defined at all, exactly when nothing is cut off, or when the line is
      one that is refused and so is its second part on its own. */
  lemma InlineCutExact(part: Bytes, rest: Bytes)
    requires part != "" && OneLine(part + rest) && part[0] != '*' && part[0] != '\n'
    ensures var whole := part + rest;
            FeedAll(START, [part, rest]) == FeedAll(START, [whole]) && Defined(START, [part, rest])
            <==> rest == "" || (Refused(whole) && Refused(rest))
  {
    hide Parse, Feed, FeedAll, Defined, Refused, OneLine;
    var whole := part + rest;
    TwoChunks(part, rest);
    LastChunk(START, whole);
    if rest == "" {
      assert whole == part;
      NothingMore(part);
    } else {
      RestIsLine(part, rest);
      UnfinishedLine(part);
      RefusedExact(whole);
      RefusedExact(rest);
      assert whole[0] == part[0];
      Fed(part);
      assert "" + rest == rest && "" + whole == whole;
      RealCut(part, rest);
    }
  }

  lemma NothingMore(part: Bytes)
    requires part != "" && part[0] != '*' && part[0] != '\n'
    ensures Feed(Feed(START, part), "") == Feed(START, part)
    ensures !Parse(part).Undefined? && !Parse(Feed(START, part).pending + "").Undefined?
  {
    InlineSettles(part);
    InlineOutcomes(part);
    assert Parse("").NeedMore?;
    hide Parse;
    assert START.pending + part == part;
    EmptyFeed(Feed(START, part));
  }

  /** The first chunk a handler gets. */
  lemma Fed(b: Bytes)
    ensures Feed(START, b) == match Parse(b)
                              case NeedMore(_) => Progress(b, [])
                              case Execute(args, _) => Progress("", [args])
                              case _ => START
  {
    hide Parse;
    assert START.pending + b == b;
    if Parse(b).Execute? { assert [] + [Parse(b).args] == [Parse(b).args]; }
  }

  /** With something left to cut off, what counts is what the second part does on its own. */
  lemma RealCut(part: Bytes, rest: Bytes)
    requires part != "" && rest != "" && OneLine(part + rest) && OneLine(rest)
    requires part[0] != '*' && part[0] != '\n'
    ensures Feed(START, rest) == Feed(START, part + rest) && !Parse(rest).Undefined?
            <==> Parse(part + rest).Reject? && Parse(rest).Reject?
  {
    var whole := part + rest;
    assert whole[0] == part[0];
    InlineSettles(whole);
    InlineOutcomes(whole);
    if Parse(whole).Execute? && Parse(rest).Execute? { CutExecutesOther(part, rest); }
    hide Parse, Feed;
    Fed(rest);
    Fed(whole);
  }

  lemma RestIsLine(part: Bytes, rest: Bytes)
    requires OneLine(part + rest) && rest != ""
    ensures OneLine(rest) && '\n' !in part
  {
    var whole := part + rest;
    assert forall k :: 0 <= k < |part| ==> part[k] == whole[k];
    assert forall k :: 0 <= k < |rest| ==> rest[k] == whole[|part| + k];
    FindFromIs(rest, 0, '\n', |rest| - 1);
  }

  lemma UnfinishedLine(part: Bytes)
    requires part != "" && part[0] != '*' && '\n' !in part
    ensures Parse(part).Reject?
  {
    InlineOutcomes(part);
  }

  lemma CutExecutesOther(part: Bytes, rest: Bytes)
    requires part != "" && rest != "" && OneLine(part + rest) && OneLine(rest) && part[0] != '*'
    requires Parse(part + rest).Execute? && Parse(rest).Execute?
    ensures Parse(part + rest).args != Parse(rest).args
  {
    var whole := part + rest;
    assert whole[0] == part[0] && whole[|whole| - 1] in whole;
    if rest[0] == '*' { HeaderAlone(rest); }
    InlineOutcomes(whole);
    InlineOutcomes(rest);
    assert |rest| >= 2;
    OneLineVerdict(whole);
    OneLineVerdict(rest);
    CutWordsDiffer(part, rest);
  }

  /** For instance PING cut in two executes NG, a command the client never sent; and a line that is
      refused whole, for its leading space, executes NG as well when it is cut after PI. */
  lemma InlineCutLosesCommand()
    ensures FeedAll(START, ["PING\n"]).executed == [["PING"]]
    ensures FeedAll(START, ["PI", "NG\n"]).executed == [["NG"]] && Defined(START, ["PI", "NG\n"])
    ensures FeedAll(START, [" PING\n"]).executed == []
    ensures FeedAll(START, [" PI", "NG\n"]).executed == [["NG"]] && Defined(START, [" PI", "NG\n"])
  {
    OneWord("PING");
    OneWord("NG");
    assert "PING" + "\n" == "PING\n" && "NG" + "\n" == "NG\n";
    InlineOutcomes(" PING\n");
    InlineOutcomes("PI");
    InlineOutcomes(" PI");
    hide Parse;
    LastChunk(START, "PING\n");
    LastChunk(START, " PING\n");
    FeedAlone([], "PING\n");
    FeedAlone([], " PING\n");
    InlineChunksStandAlone("PI", "NG\n");
    InlineChunksStandAlone(" PI", "NG\n");
  }

  /** A request that arrives where an argument is awaited. */
  lemma StrayRequest(next: Bytes)
    requires next != "" && next[0] == '*' && Parse(next).Execute?
    ensures Parse("*1\r\n" + next).Reject?
  {
    var b := "*1\r\n" + next;
    var lf := FindFrom(next, 0, '\n');
    assert b[4 + lf] == next[lf] == '\n' && b[4] == next[0];
    assert FindFrom(b, 4, '\n') <= 4 + lf;
    FindFromIs(b, 0, '\n', 3);
    assert b[..3] == "*1\r";
    OneArgument();
    assert NextBulk(b, 4).Bad?;
  }

  lemma OneArgument()
    ensures ToInt("*1\r") == Value(1)
  {
    OneDigit('1');
    PartsRead("*1\r", "1", "");
  }

  lemma HeaderWaits()
    ensures Parse("*1\r\n").NeedMore?
  {
    FindFromIs("*1\r\n", 0, '\n', 3);
    assert "*1\r\n"[..3] == "*1\r";
    OneArgument();
    HeaderAlone("*1\r\n");
  }

  lemma KeptAndLost(first: Bytes, header: Bytes, next: Bytes)
    requires Parse(first).Reject? && Parse(header).NeedMore? && Parse(header + next).Reject?
    ensures FeedAll(START, [first, header, next]) == START && Defined(START, [first, header, next])
  {
    hide Parse, Feed, FeedAll, Defined;
    Fed(first);
    Fed(header);
    assert "" + header == header;
    TwoChunks(first, header);
    Dropped(Progress(header, []), next);
    assert [first, header, next] == [first, header] + [next];
    FeedAllAppend(START, [first, header], [next]);
    LastChunk(Progress(header, []), next);
  }

  lemma ServedAfter(whole: Bytes, next: Bytes, args: Command)
    requires Parse(whole).Reject? && Parse(next) == Execute(args, |next|)
    ensures FeedAll(START, [whole, next]) == Progress("", [args])
  {
    hide Parse, Feed, FeedAll, Defined;
    Fed(whole);
    Fed(next);
    TwoChunks(whole, next);
  }

  lemma Dropped(p: Progress, chunk: Bytes)
    requires Parse(p.pending + chunk).Reject?
    ensures Feed(p, chunk) == Progress("", p.executed)
  {
    hide Parse;
  }

  lemma BareLineFeed()
    ensures Defined(START, [" PI\n"]) && !Defined(START, [" PI", "\n"])
  {
    InlineOutcomes(" PI");
    InlineOutcomes("\n");
    InlineOutcomes(" PI\n");
    hide Parse, Feed, FeedAll, Defined;
    assert "" + " PI\n" == " PI\n" && "" + "\n" == "\n";
    LastChunk(START, " PI\n");
    Fed(" PI");
    TwoChunks(" PI", "\n");
  }

  /** What a cut can do to a line that is refused.  A second part that looks like a header is not
      dropped but kept, and whatever request follows it, correct by itself, is lost; and a second part
      that is a bare LF is undefined. */
  lemma InlineCutLosesNext(next: Bytes, args: Command)
    requires next != "" && next[0] == '*' && Parse(next) == Execute(args, |next|)
    ensures FeedAll(START, [" *1\r\n", next]) == Progress("", [args])
    ensures FeedAll(START, [" ", "*1\r\n", next]) == START && Defined(START, [" ", "*1\r\n", next])
    ensures Defined(START, [" PI\n"]) && !Defined(START, [" PI", "\n"])
  {
    hide Feed, FeedAll, Defined;
    InlineOutcomes(" ");
    InlineOutcomes(" *1\r\n");
    HeaderWaits();
    StrayRequest(next);
    hide Parse;
    ServedAfter(" *1\r\n", next, args);
    KeptAndLost(" ", "*1\r\n", next);
    BareLineFeed();
  }
}
