/** CommandHandler: the resumable parser, proved against the one-shot parser of Protocol. */
module Handlers {
  import opened ByteStrings
  import opened Numbers
  import opened Splitting
  import opened Protocol
  import opened Dispatch

  datatype Type = NotSet | InlineRequest | MultiBulk

  class CommandHandler {
    var kind: Type
    var commandString: Bytes
    var commandOffset: nat
    var numberOfArguments: int
    var numberOfArgumentsLeft: int
    var lastArgumentLength: int
    var commandArguments: seq<Bytes>

    const commands: Commands
    var finished: seq<Bytes>  // what the finish callback has been called with

    /** Between feeds every field is determined by the bytes received since the last reset: the
        fields are the point at which the one-shot parser of those bytes stops. */
    ghost predicate Valid()
      reads this, commands, commands.dbHashTable, commands.dbAvlTree, commands.dbAvlTree.Repr
    {
      && Parse(commandString) == NeedMore(Position())
      && kind == (if commandString == "" then NotSet else MultiBulk)
      && commands.Valid() && this !in commands.Repr()
    }

    ghost function Position(): Resume
      reads this
    {
      Resume(numberOfArguments, numberOfArgumentsLeft, commandOffset, lastArgumentLength, commandArguments)
    }

    ghost predicate IsReset()
      reads this
    {
      kind == NotSet && commandString == "" && Position() == IDLE
    }

    constructor (commands: Commands)
      requires commands.Valid()
      ensures Valid() && commandString == "" && finished == [] && this.commands == commands
    {
      kind, commandString, commandOffset := NotSet, "", 0;
      numberOfArguments, numberOfArgumentsLeft, lastArgumentLength := -1, -1, -1;
      commandArguments, finished := [], [];
      this.commands := commands;
    }

    method Reset()
      modifies this
      ensures IsReset() && finished == old(finished)
    {
      kind := NotSet;
      commandString := "";
      commandOffset := 0;
      numberOfArguments := -1;
      numberOfArgumentsLeft := -1;
      lastArgumentLength := -1;
      commandArguments := [];
    }

    /** Returns true while more bytes are needed, and after a request that was refused. */
    method FeedAndParseCommand(chunk: Bytes) returns (needMore: bool)
      requires Valid()
      requires !Parse(commandString + chunk).Undefined?
      modifies this, commands.Repr()
      ensures Valid() && fresh(commands.Repr() - old(commands.Repr()))
      ensures match Parse(old(commandString) + chunk)
              case NeedMore(_) => needMore && commandString == old(commandString) + chunk
              case Execute(_, _) => !needMore && commandString == ""
              case _ => needMore && commandString == ""
      ensures match Parse(old(commandString) + chunk)
              case Execute(args, _) =>
                args != [] &&
                var r := old(Respond(commands.world, commands.State(), args));
                finished == old(finished) + [r.reply] && commands.State() == r.state
              case _ => finished == old(finished) && commands.State() == old(commands.State())
    {
      hide Respond, Arguments, Inline;
      ghost var before := commandString;
      ghost var verdict := Parse(before + chunk);
      Resumed(before, chunk);
      commandString := commandString + chunk;

      var begin := commandOffset;
      if numberOfArguments < 0 {
        if begin == |commandString| || commandString[begin] != '*' {
          var parsed := ParseInline(begin);
          if !parsed {
            Reset();
            return true;
          }
        } else {
          var next := ParseNumberOfArguments(begin);
          if next.None? {
            return true;
          }
          begin := next.value;
        }
      }

      if kind == MultiBulk {
        var parsed := ParseArguments(begin);
        if !parsed {
          return true;
        }
      }

      ExecuteCommand();
      return false;
    }

    method ParseInline(begin: nat) returns (parsed: bool)
      requires begin == commandOffset == 0 && commandArguments == []
      requires commandString == "" || (commandString[0] != '*' && !Inline(commandString).Undefined?)
      modifies this`kind, this`commandOffset, this`commandArguments
      ensures kind == InlineRequest
      ensures parsed <==> commandString != "" && Inline(commandString).Execute?
      ensures parsed ==> commandArguments == Inline(commandString).args
    {
      kind := InlineRequest;
      var lf := FindFrom(commandString, begin, '\n');
      if lf == |commandString| {
        return false;
      }
      commandOffset := commandOffset + (lf - begin);

      // trim
      if commandString[lf - 1] == '\r' {
        lf := lf - 1;
      }
      commandArguments := SplitLine(commandString, begin, lf, ' ');
      return !(|commandArguments| == 0 || |commandArguments[0]| == 0);
    }

    /** The position after the header, or None if there is none yet or it was refused. */
    method ParseNumberOfArguments(begin: nat) returns (next: Option<nat>)
      requires begin == commandOffset == 0 && numberOfArguments == -1 && Position() == IDLE
      requires commandString != "" && commandString[0] == '*' && !Parse(commandString).Undefined?
      modifies this
      ensures finished == old(finished)
      ensures next.None? ==>
                var v := old(Parse(commandString));
                || (v == NeedMore(IDLE) && commandString == old(commandString) && Position() == IDLE
                    && kind == MultiBulk)
                || (v.Reject? && IsReset())
      ensures next.Some? ==>
                && commandString == old(commandString) && kind == MultiBulk && numberOfArguments > 0
                && next.value == commandOffset <= |commandString|
                && Position() == Resume(numberOfArguments, numberOfArguments, commandOffset, -1, [])
                && Parse(commandString) ==
                   Arguments(commandString, numberOfArguments, numberOfArguments, commandOffset, [])
    {
      hide Arguments;
      kind := MultiBulk;
      var lf := FindFrom(commandString, begin, '\n');
      if lf == |commandString| {
        return None;
      }
      assert commandString[begin..lf] == commandString[..lf];
      numberOfArguments := ReadInt(commandString, begin, lf);
      if numberOfArguments <= 0 {
        Reset();
        return None;
      }
      lf := lf + 1;
      numberOfArgumentsLeft := numberOfArguments;
      commandOffset := commandOffset + (lf - begin);
      return Some(lf);
    }

    /** Reads as many bulk arguments as have arrived; true once none is missing. */
    method ParseArguments(begin: nat) returns (parsed: bool)
      requires begin == commandOffset <= |commandString| && numberOfArgumentsLeft > 0
      requires FindFrom(commandString, begin, '\n') == |commandString| ==> lastArgumentLength == -1
      requires !Arguments(commandString, numberOfArguments, numberOfArgumentsLeft, begin, commandArguments).Undefined?
      modifies this
      ensures finished == old(finished)
      ensures match old(Arguments(commandString, numberOfArguments, numberOfArgumentsLeft, begin, commandArguments))
              case NeedMore(r) => !parsed && Position() == r && commandString == old(commandString) && kind == old(kind)
              case Execute(args, used) => parsed && commandArguments == args && commandOffset == used
              case _ => !parsed && IsReset()
    {
      ghost var verdict := Arguments(commandString, numberOfArguments, numberOfArgumentsLeft, begin, commandArguments);
      hide Arguments;
      var c := begin;
      while numberOfArgumentsLeft != 0
        invariant 0 <= numberOfArgumentsLeft && c == commandOffset <= |commandString|
        invariant commandString == old(commandString) && kind == old(kind) && finished == old(finished)
        invariant FindFrom(commandString, c, '\n') == |commandString| ==> lastArgumentLength == -1
        invariant verdict == Arguments(commandString, numberOfArguments, numberOfArgumentsLeft, c, commandArguments)
        decreases numberOfArgumentsLeft
      {
        var next := ReadArgument(c);
        if next.None? {
          return false;
        }
        c := next.value;
      }
      NoneLeft(commandString, numberOfArguments, c, commandArguments);
      return true;
    }

    /** One turn of that loop: the position after the next argument, or None where the loop breaks off. */
    method ReadArgument(c: nat) returns (next: Option<nat>)
      requires c == commandOffset <= |commandString| && numberOfArgumentsLeft > 0
      requires FindFrom(commandString, c, '\n') == |commandString| ==> lastArgumentLength == -1
      requires !Arguments(commandString, numberOfArguments, numberOfArgumentsLeft, c, commandArguments).Undefined?
      modifies this
      ensures finished == old(finished)
      ensures var v := old(Arguments(commandString, numberOfArguments, numberOfArgumentsLeft, c, commandArguments));
              if next.Some? then
                && commandString == old(commandString) && kind == old(kind) && lastArgumentLength == -1
                && next.value == commandOffset <= |commandString|
                && numberOfArgumentsLeft == old(numberOfArgumentsLeft) - 1
                && v == Arguments(commandString, numberOfArguments, numberOfArgumentsLeft, next.value, commandArguments)
              else if v.NeedMore? then
                Position() == v.resume && commandString == old(commandString) && kind == old(kind)
              else v.Reject? && IsReset()
    {
      hide Arguments, FindFrom, ToInt, NextBulk;
      ArgumentsTurn(commandString, numberOfArguments, numberOfArgumentsLeft, c, commandArguments);
      var lf := FindFrom(commandString, c, '\n');
      if lf == |commandString| {
        return None;
      }
      if commandString[c] != '$' {
        Reset();
        return None;
      }
      lastArgumentLength := ReadInt(commandString, c, lf);
      if lastArgumentLength <= 0 {
        Reset();
        return None;
      }
      lf := lf + 1;
      if lastArgumentLength + 2 > |commandString| - lf {
        return None;
      }
      var length: nat := lastArgumentLength;
      if commandString[lf + length..lf + length + 2] != CRLF {
        Reset();
        return None;
      }
      commandArguments := commandArguments + [commandString[lf..lf + length]];
      numberOfArgumentsLeft := numberOfArgumentsLeft - 1;
      commandOffset := commandOffset + (lf + length + 2 - c);
      lastArgumentLength := -1;
      return Some(lf + length + 2);
    }

    /** Looks the command up, runs it, hands its reply to the finish callback, and forgets the buffer. */
    method ExecuteCommand()
      requires commandArguments != [] && commands.Valid() && this !in commands.Repr()
      modifies this, commands.Repr()
      ensures IsReset() && commands.Valid() && this !in commands.Repr()
      ensures fresh(commands.Repr() - old(commands.Repr()))
      ensures var r := old(Respond(commands.world, commands.State(), commandArguments));
              finished == old(finished) + [r.reply] && commands.State() == r.state
    {
      hide Respond;
      var reply := commands.Execute(commandArguments);
      finished := finished + [reply];
      Reset();
    }

    /** toInt on b[marker + 1..end], where b[end] is the LF. */
    static method ReadInt(b: Bytes, marker: nat, end: nat) returns (num: int)
      requires marker < end <= |b| && b[marker] != '\r'
      requires ToInt(b[marker..end]).Value?
      ensures num == ToInt(b[marker..end]).value
    {
      ghost var line := b[marker..end];
      if b[end - 1] != '\r' {
        return -1;
      }
      ghost var cr := FindFrom(line, 1, '\r');
      ghost var digits := line[1..cr];
      assert line[|line| - 1] == '\r' && line[cr] == '\r';
      num := 0;
      var begin := marker + 1;
      while b[begin] != '\r'
        invariant marker + 1 <= begin <= marker + cr < end
        invariant InInt(num) && num == Fold(digits[..begin - marker - 1])
        decreases end - begin
      {
        ghost var n := begin - marker - 1;
        assert line[n + 1] == b[begin];
        assert digits[n] == b[begin];
        FoldStep(digits, n);
        SafePrefix(digits, n + 1);
        assert InInt(num * 10);
        num := num * 10 + Digit(b[begin]);
        begin := begin + 1;
      }
      assert line[begin - marker] == '\r';
      assert digits[..begin - marker - 1] == digits;
    }

    /** split over b[begin..end]. */
    static method SplitLine(b: Bytes, begin: nat, end: nat, delimiter: char) returns (destination: seq<Bytes>)
      requires begin <= end < |b| && b[end] != delimiter
      ensures destination == Split(b[begin..end], delimiter)
    {
      hide Split;
      destination := [];
      var from, found := begin, -1;
      while found != end
        invariant begin <= from <= end && -1 <= found <= end
        invariant found == -1 || found == from
        invariant found != end ==> destination + Split(b[from..end], delimiter) == Split(b[begin..end], delimiter)
        invariant found == end ==> destination == Split(b[begin..end], delimiter)
        invariant found >= 0 && found != end ==> b[from] != delimiter
        decreases end - from, if found == -1 then 1 else 0
      {
        var cut := FindFrom(b[..end], from, delimiter);
        destination := destination + [b[from..cut]];

        // trim
        found := cut;
        while b[found] == delimiter
          invariant cut <= found <= end
          invariant forall k :: cut <= k < found ==> b[k] == delimiter
          decreases end - found
        {
          found := found + 1;
        }
        SplitCut(b, from, end, delimiter, cut, found);
        from := found;
      }
    }
  }

  /** One turn of the argument loop, in the order the loop makes its tests. */
  lemma ArgumentsTurn(b: Bytes, total: int, left: nat, off: nat, args: seq<Bytes>)
    requires off <= |b| && left > 0
    ensures var v, lf := Arguments(b, total, left, off, args), FindFrom(b, off, '\n');
            if lf == |b| then v == NeedMore(Resume(total, left, off, -1, args))
            else if b[off] != '$' then v == Reject
            else match ToInt(b[off..lf])
              case Overflow => v == Undefined
              case Value(n) =>
                if n <= 0 then v == Reject
                else if n + 2 > INT_MAX then v == Undefined
                else if n + 2 > |b| - (lf + 1) then v == NeedMore(Resume(total, left, off, n, args))
                else if b[lf + 1 + n..lf + 1 + n + 2] != CRLF then v == Reject
                else v == Arguments(b, total, left - 1, lf + 1 + n + 2, args + [b[lf + 1..lf + 1 + n]])
  {
    hide ToInt, FindFrom;
  }

  /** One turn of the loop of split: the token up to the delimiter, then past the whole run. */
  lemma SplitCut(b: Bytes, from: nat, end: nat, c: char, cut: nat, next: nat)
    requires from <= end < |b| && cut == FindFrom(b[..end], from, c) <= next <= end
    requires b[next] != c && forall k :: cut <= k < next ==> b[k] == c
    ensures Split(b[from..end], c) == [b[from..cut]] + if next == end then [] else Split(b[next..end], c)
  {
    hide Split, FindFrom, SkipFrom;
    SliceCut(b, from, end, c, cut, next);
    var rest := b[from..end];
    assert |rest| == end - from;
    SkipFromIs(rest, cut - from, c, next - from);
    SplitUnfold(rest, c, cut - from, next - from);
  }

  lemma SplitUnfold(line: Bytes, c: char, cut: nat, next: nat)
    requires cut == FindFrom(line, 0, c) && next == SkipFrom(line, cut, c)
    ensures Split(line, c) == [line[..cut]] + if next == |line| then [] else Split(line[next..], c)
  {}

  lemma SliceCut(b: Bytes, from: nat, end: nat, c: char, cut: nat, next: nat)
    requires from <= end < |b| && cut == FindFrom(b[..end], from, c) <= next <= end
    requires forall k :: cut <= k < next ==> b[k] == c
    ensures FindFrom(b[from..end], 0, c) == cut - from
    ensures forall k :: cut - from <= k < next - from ==> b[from..end][k] == c
    ensures next < end ==> b[from..end][next - from] == b[next]
    ensures b[from..end][..cut - from] == b[from..cut] && b[from..end][next - from..] == b[next..end]
  {
    hide FindFrom;
    FindFromShift(b[..end], from, c);
    assert b[..end][from..] == b[from..end];
    forall k | cut - from <= k < next - from ensures b[from..end][k] == c { assert b[from..end][k] == b[from + k]; }
  }

  /** What the saved fields are good for: the buffer with the new bytes is parsed from them. */
  lemma Resumed(before: Bytes, chunk: Bytes)
    requires Parse(before).NeedMore?
    ensures var r, all := Parse(before).resume, before + chunk;
            if r.total > 0 then
              && r.left > 0 && r.offset <= |all| && Parse(all) == Arguments(all, r.total, r.left, r.offset, r.args)
              && (FindFrom(all, r.offset, '\n') == |all| ==> r.lastLength == -1)
            else r == IDLE && (before == "" || before[0] == '*')
  {
    ResumeInvariant(before);
    var r := Parse(before).resume;
    if r.total > 0 && FindFrom(before, r.offset, '\n') < |before| { FindFromExtend(before, chunk, r.offset, '\n'); }
    if before != "" { ParseExtend(before, chunk); }
  }
}
