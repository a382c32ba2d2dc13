/** The wire protocol as a one-shot parser of everything received since the last reset,
    and the facts that make it the specification of the resumable one.
 */
module Protocol {
  import opened ByteStrings
  import opened Numbers
  import opened Splitting

  /** Where parsing of a multi-bulk command stopped for want of bytes. */
  datatype Resume = Resume(total: int, left: int, offset: nat, lastLength: int, args: seq<Bytes>)

  const IDLE := Resume(-1, -1, 0, -1, [])

  datatype Verdict =
    | NeedMore(resume: Resume)
    | Execute(args: seq<Bytes>, used: nat)  // the command, and how many bytes it took
    | Reject                                // drop everything, execute nothing
    | Undefined                             // int overflow, or a look at the byte before the buffer

  /** One bulk argument, starting at b[off]. */
  datatype Item =
    | Short(lastLength: int)          // not all here; its length if the length line is, else -1
    | Got(arg: Bytes, next: nat)
    | Bad
    | TooLarge

  function NextBulk(b: Bytes, off: nat): (item: Item)
    requires off <= |b|
    ensures item.Got? ==> off < item.next <= |b|
  {
    var lf := FindFrom(b, off, '\n');
    if lf == |b| then Short(-1)
    else if b[off] != '$' then Bad
    else match ToInt(b[off..lf])
      case Overflow => TooLarge
      case Value(n) =>
        if n <= 0 then Bad
        else if n + 2 > INT_MAX then TooLarge
        else if n + 2 > |b| - (lf + 1) then Short(n)
        else if b[lf + 1 + n..lf + 1 + n + 2] != CRLF then Bad
        else Got(b[lf + 1..lf + 1 + n], lf + 1 + n + 2)
  }

  /** Bulk arguments from b[off..], `left` of them still missing. */
  function Arguments(b: Bytes, total: int, left: nat, off: nat, args: seq<Bytes>): (v: Verdict)
    requires off <= |b|
    ensures v.NeedMore? ==> off <= v.resume.offset <= |b| && v.resume.total == total && 1 <= v.resume.left <= left
    ensures v.Execute? ==> off <= v.used <= |b| && |v.args| == |args| + left
    decreases left
  {
    if left == 0 then Execute(args, off)
    else match NextBulk(b, off)
      case Short(n) => NeedMore(Resume(total, left, off, n, args))
      case Got(arg, next) => Arguments(b, total, left - 1, next, args + [arg])
      case Bad => Reject
      case TooLarge => Undefined
  }

  /** An inline request: everything up to the first LF, less one CR before it. */
  function Inline(b: Bytes): (v: Verdict)
    requires b != "" && b[0] != '*'
    ensures !v.NeedMore?
    ensures v.Execute? ==> |v.args| >= 1 && v.used <= |b|
  {
    var lf := FindFrom(b, 0, '\n');
    if lf == |b| then Reject
    else if lf == 0 then Undefined
    else
      var tokens := Split(b[..if b[lf - 1] == '\r' then lf - 1 else lf], ' ');
      if tokens[0] == "" then Reject else Execute(tokens, lf + 1)
  }

  /** The verdict on all bytes received since the last reset. */
  function Parse(b: Bytes): (v: Verdict)
    ensures v.NeedMore? ==> v.resume.offset <= |b|
    ensures v.Execute? ==> v.used <= |b| && v.args != []
  {
    if b == "" then NeedMore(IDLE)
    else if b[0] != '*' then Inline(b)
    else
      var lf := FindFrom(b, 0, '\n');
      if lf == |b| then NeedMore(IDLE)
      else match ToInt(b[..lf])
        case Overflow => Undefined
        case Value(n) => if n <= 0 then Reject else Arguments(b, n, n, lf + 1, [])
  }

  // ---- More bytes never change a verdict, and parsing may restart where it stopped ----

  lemma NextBulkExtend(b: Bytes, x: Bytes, off: nat)
    requires off <= |b|
    ensures !NextBulk(b, off).Short? ==> NextBulk(b + x, off) == NextBulk(b, off)
  {
    var lf := FindFrom(b, off, '\n');
    if lf < |b| {
      FindFromExtend(b, x, off, '\n');
      assert (b + x)[off..lf] == b[off..lf];
      if b[off] == '$' && ToInt(b[off..lf]).Value? {
        var n := ToInt(b[off..lf]).value;
        if 0 < n && lf + n + 3 <= |b| {
          assert (b + x)[lf + 1 + n..lf + 1 + n + 2] == b[lf + 1 + n..lf + 1 + n + 2];
          assert (b + x)[lf + 1..lf + 1 + n] == b[lf + 1..lf + 1 + n];
        }
      }
    }
  }

  /** Carry on from v with the buffer b. */
  function Continue(b: Bytes, v: Verdict): Verdict
    requires v.NeedMore? ==> v.resume.offset <= |b| && v.resume.left >= 0
  {
    if v.NeedMore? then Arguments(b, v.resume.total, v.resume.left, v.resume.offset, v.resume.args) else v
  }

  lemma {:induction false} ArgumentsExtend(b: Bytes, x: Bytes, total: int, left: nat, off: nat, args: seq<Bytes>)
    requires off <= |b|
    ensures Arguments(b + x, total, left, off, args) == Continue(b + x, Arguments(b, total, left, off, args))
    decreases left
  {
    hide NextBulk;
    if left > 0 {
      NextBulkExtend(b, x, off);
      match NextBulk(b, off)
      case Short(_) =>
      case Got(arg, next) => ArgumentsExtend(b, x, total, left - 1, next, args + [arg]);
      case Bad =>
      case TooLarge =>
    }
  }

  /** Appending bytes to a multi-bulk request leaves any settled verdict as it is, and an
      unsettled one is settled by carrying on from the recorded position. */
  lemma ParseExtend(b: Bytes, x: Bytes)
    requires b != "" && b[0] == '*'
    ensures Parse(b).NeedMore? && Parse(b).resume.total <= 0 ==> Parse(b).resume == IDLE && FindFrom(b, 0, '\n') == |b|
    ensures !Parse(b).NeedMore? || Parse(b).resume.total > 0 ==>
              && (Parse(b).NeedMore? ==> Parse(b).resume.left > 0)
              && Parse(b + x) == Continue(b + x, Parse(b))
  {
    var lf := FindFrom(b, 0, '\n');
    assert (b + x)[0] == '*';
    if lf < |b| {
      FindFromExtend(b, x, 0, '\n');
      assert (b + x)[..lf] == b[..lf];
      match ToInt(b[..lf])
      case Overflow =>
      case Value(n) => if n > 0 { ArgumentsExtend(b, x, n, n, lf + 1, []); }
    }
  }

  // ---- The grammar of accepted requests, said without the scan ----

  predicate NoLF(line: Bytes) {
    forall k :: 0 <= k < |line| ==> line[k] != '\n'
  }

  /** A line for the positive number n: the marker, the number, and possibly more up to another CR. */
  ghost predicate NumberLine(line: Bytes, marker: char, n: nat) {
    && line != "" && line[0] == marker != '\r' && NoLF(line)
    && n > 0 && Denotes(line, n)
  }

  /** The same line as the parser sees it. */
  predicate ReadsAs(line: Bytes, marker: char, n: nat) {
    && line != "" && line[0] == marker != '\r' && NoLF(line)
    && n > 0 && ToInt(line) == Value(n)
  }

  lemma NumberLineRead(line: Bytes, marker: char, n: nat)
    ensures NumberLine(line, marker, n) <==> ReadsAs(line, marker, n)
  {
    hide ToInt, Denotes;
    if line != "" && line[0] != '\r' && n > 0 { DenotesExact(line, n); }
  }

  function OneBulk(line: Bytes, arg: Bytes): Bytes {
    line + "\n" + arg + CRLF
  }

  function Bulks(lines: seq<Bytes>, args: seq<Bytes>): Bytes
    requires |lines| == |args|
  {
    if args == [] then "" else OneBulk(lines[0], args[0]) + Bulks(lines[1..], args[1..])
  }

  ghost predicate GoodBulk(line: Bytes, arg: Bytes) {
    NumberLine(line, '$', |arg|) && |arg| + 2 <= INT_MAX
  }

  ghost predicate WellFormed(lines: seq<Bytes>, args: seq<Bytes>) {
    && |lines| == |args|
    && forall i :: 0 <= i < |args| ==> GoodBulk(lines[i], args[i])
  }

  lemma BulksCons(line: Bytes, arg: Bytes, lines: seq<Bytes>, args: seq<Bytes>)
    requires |lines| == |args|
    ensures Bulks([line] + lines, [arg] + args) == OneBulk(line, arg) + Bulks(lines, args)
    ensures GoodBulk(line, arg) && WellFormed(lines, args) ==> WellFormed([line] + lines, [arg] + args)
  {
    assert ([line] + lines)[1..] == lines && ([arg] + args)[1..] == args;
  }

  /** The bytes `request` are a multi-bulk request for args: any lines for the right numbers will do. */
  ghost predicate Request(request: Bytes, args: seq<Bytes>) {
    exists head, lines ::
      && NumberLine(head, '*', |args|) && WellFormed(lines, args)
      && request == head + "\n" + Bulks(lines, args)
  }

  lemma NumberLineFound(b: Bytes, off: nat, line: Bytes)
    requires off + |line| < |b| && b[off..off + |line|] == line && b[off + |line|] == '\n' && NoLF(line)
    ensures FindFrom(b, off, '\n') == off + |line|
  {
    forall k | off <= k < off + |line| ensures b[k] != '\n' {
      assert b[k] == b[off..off + |line|][k - off];
    }
    FindFromIs(b, off, '\n', off + |line|);
  }

  lemma Within(b: Bytes, off: nat, i: nat, j: nat)
    requires i <= j && off + j <= |b|
    ensures b[off..][i..j] == b[off + i..off + j]
  {}

  /** Where the parts of a bulk are. */
  lemma BulkParts(s: Bytes, line: Bytes, arg: Bytes, rest: Bytes)
    requires s == OneBulk(line, arg) + rest
    ensures var n := |line| + 1 + |arg|;
            && |s| == n + 2 + |rest| && s[..|line|] == line && s[|line|] == '\n'
            && s[|line| + 1..n] == arg && s[n..n + 2] == CRLF && s[n + 2..] == rest
  {}

  lemma NextBulkOf(b: Bytes, off: nat, line: Bytes, arg: Bytes, rest: Bytes)
    requires off <= |b| && b[off..] == OneBulk(line, arg) + rest
    requires GoodBulk(line, arg)
    ensures NextBulk(b, off) == Got(arg, |b| - |rest|)
    ensures b[|b| - |rest|..] == rest
  {
    hide ToInt, FindFrom, Denotes, OneBulk;
    NumberLineRead(line, '$', |arg|);
    var s, n := b[off..], |line| + 1 + |arg|;
    BulkParts(s, line, arg, rest);
    Within(b, off, 0, |line|);
    Within(b, off, |line| + 1, n);
    Within(b, off, n, n + 2);
    assert s[0] == '$' && b[off + |line|] == s[|line|];
    assert b[off + n + 2..] == s[n + 2..];
    NumberLineFound(b, off, line);
  }

  /** Reading well-formed bulks: the parser gets past them, with their arguments saved. */
  lemma {:induction false} ArgumentsSkip(b: Bytes, total: int, left: nat, off: nat, saved: seq<Bytes>,
                                         lines: seq<Bytes>, args: seq<Bytes>, rest: Bytes)
    requires WellFormed(lines, args) && |args| <= left
    requires off <= |b| && b[off..] == Bulks(lines, args) + rest
    ensures off <= |b| - |rest| && b[|b| - |rest|..] == rest
    ensures Arguments(b, total, left, off, saved)
         == Arguments(b, total, left - |args|, |b| - |rest|, saved + args)
    decreases |args|
  {
    hide NextBulk, NumberLine;
    if args == [] {
      assert saved + args == saved;
    } else {
      var tail := Bulks(lines[1..], args[1..]) + rest;
      assert b[off..] == OneBulk(lines[0], args[0]) + tail;
      NextBulkOf(b, off, lines[0], args[0], tail);
      ArgumentsStep(b, total, left, off, saved);
      ArgumentsSkip(b, total, left - 1, |b| - |tail|, saved + [args[0]], lines[1..], args[1..], rest);
      assert saved + [args[0]] + args[1..] == saved + args;
    }
  }

  /** One argument at a time. */
  lemma ArgumentsStep(b: Bytes, total: int, left: nat, off: nat, args: seq<Bytes>)
    requires off <= |b| && left > 0
    ensures Arguments(b, total, left, off, args) ==
            match NextBulk(b, off)
            case Short(n) => NeedMore(Resume(total, left, off, n, args))
            case Got(arg, next) => Arguments(b, total, left - 1, next, args + [arg])
            case Bad => Reject
            case TooLarge => Undefined
  {
    hide NextBulk;
  }

  /** A bulk that was read was written out in full; its length line ends at the first LF. */
  lemma NextBulkSound(b: Bytes, off: nat) returns (line: Bytes)
    requires off <= |b| && NextBulk(b, off).Got?
    ensures var Got(arg, next) := NextBulk(b, off);
            && GoodBulk(line, arg)
            && b[off..next] == OneBulk(line, arg)
  {
    var lf := FindFrom(b, off, '\n');
    line := b[off..lf];
    var Got(arg, next) := NextBulk(b, off);
    NumberLineRead(line, '$', |arg|);
    assert b[off..next] == b[off..lf] + [b[lf]] + b[lf + 1..next - 2] + b[next - 2..next];
  }

  /** The bytes from off on, as far as the scan got, are the bulks of what it saved or executed. */
  predicate Delivered(b: Bytes, off: nat, saved: seq<Bytes>, left: nat, v: Verdict, lines: seq<Bytes>, got: seq<Bytes>)
    requires |lines| == |got|
  {
    match v
    case Execute(args, used) =>
      off <= used <= |b| && args == saved + got && |got| == left && b[off..used] == Bulks(lines, got)
    case NeedMore(r) =>
      off <= r.offset <= |b| && r.args == saved + got && |got| + r.left == left && b[off..r.offset] == Bulks(lines, got)
    case _ => true
  }

  lemma DeliveredStep(b: Bytes, off: nat, next: nat, saved: seq<Bytes>, left: nat, v: Verdict,
                      line: Bytes, arg: Bytes, lines: seq<Bytes>, got: seq<Bytes>)
    requires |lines| == |got| && left > 0
    requires off <= next <= |b| && b[off..next] == OneBulk(line, arg)
    requires Delivered(b, next, saved + [arg], left - 1, v, lines, got)
    ensures Delivered(b, off, saved, left, v, [line] + lines, [arg] + got)
    ensures GoodBulk(line, arg) && WellFormed(lines, got) ==> WellFormed([line] + lines, [arg] + got)
  {
    BulksCons(line, arg, lines, got);
    assert saved + [arg] + got == saved + ([arg] + got);
    if v.Execute? || v.NeedMore? {
      var stop := if v.Execute? then v.used else v.resume.offset;
      assert b[off..stop] == b[off..next] + b[next..stop];
    }
  }

  /** Whatever the scan has saved or executed was written out in well-formed bulks. */
  lemma {:induction false} ArgumentsSound(b: Bytes, total: int, left: nat, off: nat, saved: seq<Bytes>)
      returns (lines: seq<Bytes>, got: seq<Bytes>)
    requires off <= |b|
    ensures WellFormed(lines, got)
    ensures Delivered(b, off, saved, left, Arguments(b, total, left, off, saved), lines, got)
    decreases left
  {
    hide NextBulk, NumberLine;
    if left > 0 && NextBulk(b, off).Got? {
      var arg, next := NextBulk(b, off).arg, NextBulk(b, off).next;
      var line := NextBulkSound(b, off);
      lines, got := ArgumentsSound(b, total, left - 1, next, saved + [arg]);
      DeliveredStep(b, off, next, saved, left, Arguments(b, total, left, off, saved), line, arg, lines, got);
      lines, got := [line] + lines, [arg] + got;
    } else {
      lines, got := [], [];
    }
  }

  lemma NoneLeft(b: Bytes, total: int, off: nat, args: seq<Bytes>)
    requires off <= |b|
    ensures Arguments(b, total, 0, off, args) == Execute(args, off)
  {}

  lemma RequestParses(b: Bytes, head: Bytes, lines: seq<Bytes>, args: seq<Bytes>, rest: Bytes)
    requires NumberLine(head, '*', |args|) && WellFormed(lines, args)
    requires b == head + "\n" + Bulks(lines, args) + rest
    ensures Parse(b) == Execute(args, |b| - |rest|)
  {
    hide ToInt, NextBulk, Arguments, Denotes;
    NumberLineRead(head, '*', |args|);
    assert b[0..0 + |head|] == b[..|head|] == head && b[|head|] == '\n' && b[0] == head[0];
    assert b[|head| + 1..] == Bulks(lines, args) + rest;
    NumberLineFound(b, 0, head);
    ArgumentsSkip(b, |args|, |args|, |head| + 1, [], lines, args, rest);
    NoneLeft(b, |args|, |b| - |rest|, args);
    assert [] + args == args;
  }

  lemma CutAtLF(b: Bytes, lf: nat, stop: nat)
    requires lf < stop <= |b| && b[lf] == '\n'
    ensures b[..stop] == b[..lf] + "\n" + b[lf + 1..stop]
  {}

  lemma ExecutedRequest(b: Bytes, args: seq<Bytes>, used: nat)
    requires b != "" && b[0] == '*' && Parse(b) == Execute(args, used)
    ensures Request(b[..used], args)
  {
    hide ToInt, Bulks, WellFormed, Arguments, Denotes, NumberLine, FindFrom;
    var lf := FindFrom(b, 0, '\n');
    var n := ToInt(b[..lf]).value;
    var lines, got := ArgumentsSound(b, n, n, lf + 1, []);
    assert args == got;
    CutAtLF(b, lf, used);
    NumberLineRead(b[..lf], '*', |args|);
    assert NumberLine(b[..lf], '*', |args|);
  }

  /** The parser executes args after `used` bytes exactly when those bytes are a request for args. */
  lemma ParseExact(b: Bytes, args: seq<Bytes>, used: nat)
    requires b != "" && b[0] == '*'
    ensures Parse(b) == Execute(args, used) <==> used <= |b| && Request(b[..used], args)
  {
    hide Parse, NumberLine, Bulks;
    if Parse(b) == Execute(args, used) {
      ExecutedRequest(b, args, used);
    } else if used <= |b| && Request(b[..used], args) {
      var head, lines :| NumberLine(head, '*', |args|) && WellFormed(lines, args)
                         && b[..used] == head + "\n" + Bulks(lines, args);
      assert b == b[..used] + b[used..];
      RequestParses(b, head, lines, args, b[used..]);
    }
  }

  /** What holds of the recorded position whenever more bytes are needed. */
  ghost predicate ResumeOk(b: Bytes, r: Resume) {
    if r.total <= 0 then r == IDLE && NoLF(b)
    else
      && |r.args| + r.left == r.total && 1 <= r.left <= r.total
      && r.offset <= |b|
      // what precedes the offset decodes to exactly the saved arguments
      && (exists head, lines :: NumberLine(head, '*', r.total) && WellFormed(lines, r.args)
                                && b[..r.offset] == head + "\n" + Bulks(lines, r.args))
      // the length is known iff the current argument's length line is complete,
      // and then the argument's own bytes are not all here
      && ShortOk(b, r.offset, r.lastLength)
  }

  /** Why a bulk is not complete: no LF yet, or fewer bytes than its length line announces. */
  ghost predicate ShortOk(b: Bytes, off: nat, n: int)
    requires off <= |b|
  {
    var lf := FindFrom(b, off, '\n');
    if lf == |b| then n == -1
    else n > 0 && NumberLine(b[off..lf], '$', n) && lf + 1 + n + 2 > |b|
  }

  lemma {:induction false} ArgumentsStop(b: Bytes, total: int, left: nat, off: nat, saved: seq<Bytes>)
    requires off <= |b|
    requires Arguments(b, total, left, off, saved).NeedMore?
    ensures var r := Arguments(b, total, left, off, saved).resume;
            ShortOk(b, r.offset, r.lastLength)
    decreases left
  {
    hide NextBulk, ShortOk;
    match NextBulk(b, off)
    case Short(n) => BulkStop(b, off);
    case Got(arg, next) => ArgumentsStop(b, total, left - 1, next, saved + [arg]);
    case Bad =>
    case TooLarge =>
  }

  lemma BulkStop(b: Bytes, off: nat)
    requires off <= |b| && NextBulk(b, off).Short?
    ensures ShortOk(b, off, NextBulk(b, off).lastLength)
  {
    hide Denotes;
    var lf := FindFrom(b, off, '\n');
    if lf < |b| { NumberLineRead(b[off..lf], '$', NextBulk(b, off).lastLength); }
  }

  lemma StoppedRequest(b: Bytes, lf: nat, n: nat, r: Resume)
    requires b != "" && lf == FindFrom(b, 0, '\n') < |b| && NumberLine(b[..lf], '*', n)
    requires Arguments(b, n, n, lf + 1, []) == NeedMore(r)
    ensures ResumeOk(b, r)
  {
    hide Denotes, NumberLine, ToInt, FindFrom, Arguments, ShortOk, NextBulk;
    ArgumentsStop(b, n, n, lf + 1, []);
    var lines, got := ArgumentsSound(b, n, n, lf + 1, []);
    assert r.args == got;
    CutAtLF(b, lf, r.offset);
  }

  /** The parser state invariant: every position at which the parser can be waiting is a sound one. */
  lemma ResumeInvariant(b: Bytes)
    requires Parse(b).NeedMore?
    ensures ResumeOk(b, Parse(b).resume)
    ensures b == "" || b[0] == '*'
  {
    if b != "" {
      var lf := FindFrom(b, 0, '\n');
      if lf < |b| {
        var n := ToInt(b[..lf]).value;
        NumberLineRead(b[..lf], '*', n);
        StoppedRequest(b, lf, n, Parse(b).resume);
      }
    }
  }

  // ---- Round trip with the client's encoder ----

  function Bulk(arg: Bytes): Bytes {
    "$" + Decimal(|arg|) + CRLF + arg + CRLF
  }

  function BulkAll(args: seq<Bytes>): Bytes {
    if args == [] then "" else Bulk(args[0]) + BulkAll(args[1..])
  }

  /** A request as a client writes it, with canonical decimal numbers. */
  function Encode(args: seq<Bytes>): Bytes {
    "*" + Decimal(|args|) + CRLF + BulkAll(args)
  }

  lemma ShortBulk(s: Bytes)
    requires |s| < 10
    ensures Bulk(s) == ['$', ('0' as int + |s|) as char, '\r', '\n'] + s + ['\r', '\n']
  {
    DecimalDigit(|s|);
  }

  lemma BulkAllFirst(arg: Bytes, args: seq<Bytes>)
    ensures BulkAll([arg] + args) == Bulk(arg) + BulkAll(args)
  {
    assert ([arg] + args)[1..] == args;
  }

  /** The example of the protocol's description. */
  lemma EncodeExample()
    ensures Encode(["SET", "mykey", "myvalue"]) ==
            "*3\r\n" + "$3\r\nSET\r\n" + "$5\r\nmykey\r\n" + "$7\r\nmyvalue\r\n"
  {
    var args := ["SET", "mykey", "myvalue"];
    DecimalDigit(3);
    ShortBulk("SET");
    ShortBulk("mykey");
    ShortBulk("myvalue");
    BulkAllFirst("SET", ["mykey", "myvalue"]);
    BulkAllFirst("mykey", ["myvalue"]);
    BulkAllFirst("myvalue", []);
    assert args == ["SET"] + ["mykey", "myvalue"] && ["mykey", "myvalue"] == ["mykey"] + ["myvalue"];
    assert ["myvalue"] == ["myvalue"] + [];
    assert BulkAll([]) == "";
    hide Decimal, Bulk, BulkAll;
    assert "*" + Decimal(3) + CRLF == "*3\r\n";
    var a, b, c, h := Bulk("SET"), Bulk("mykey"), Bulk("myvalue"), "*3\r\n";
    assert a == "$3\r\nSET\r\n" && b == "$5\r\nmykey\r\n" && c == "$7\r\nmyvalue\r\n";
    Concatenated(h, a, b, c);
  }

  lemma Concatenated(h: Bytes, a: Bytes, b: Bytes, c: Bytes)
    ensures h + (a + (b + (c + ""))) == h + a + b + c
  {}

  predicate LengthOk(n: nat) {
    1 <= n <= INT_MAX - 2
  }

  predicate Encodable(args: seq<Bytes>) {
    && 1 <= |args| <= INT_MAX
    && forall i :: 0 <= i < |args| ==> LengthOk(|args[i]|)
  }

  function DecimalLine(marker: char, n: nat): Bytes {
    [marker] + Decimal(n) + "\r"
  }

  lemma DecimalLineOk(marker: char, n: nat)
    requires marker != '\r' && marker != '\n' && 1 <= n <= INT_MAX
    ensures NumberLine(DecimalLine(marker, n), marker, n)
  {
    ToIntOfDecimal(marker, n);
    var line := DecimalLine(marker, n);
    NumberLineRead(line, marker, n);
    forall k | 0 <= k < |line| ensures line[k] != '\n' {
      if 0 < k < |line| - 1 {
        assert line[k] == Decimal(n)[k - 1];
        assert IsDigit(Decimal(n)[k - 1]);
      }
    }
  }

  lemma {:induction false} BulkAllIsBulks(args: seq<Bytes>) returns (lines: seq<Bytes>)
    requires forall i :: 0 <= i < |args| ==> LengthOk(|args[i]|)
    ensures WellFormed(lines, args) && BulkAll(args) == Bulks(lines, args)
  {
    if args == [] {
      lines := [];
    } else {
      var line := DecimalLine('$', |args[0]|);
      DecimalLineOk('$', |args[0]|);
      var more := BulkAllIsBulks(args[1..]);
      lines := [line] + more;
      BulksCons(line, args[0], more, args[1..]);
      assert [args[0]] + args[1..] == args;
      assert Bulk(args[0]) == OneBulk(line, args[0]);
    }
  }

  lemma EncodeIsRequest(args: seq<Bytes>)
    requires Encodable(args)
    ensures Request(Encode(args), args)
  {
    hide NumberLine, GoodBulk, ToInt, Decimal;
    var lines := BulkAllIsBulks(args);
    var head := DecimalLine('*', |args|);
    DecimalLineOk('*', |args|);
    assert Encode(args) == head + "\n" + Bulks(lines, args);
  }

  lemma NoProperPrefix(e: Bytes, args: seq<Bytes>, m: nat)
    requires m < |e| && e[0] == '*' && Parse(e) == Execute(args, |e|)
    ensures Parse(e[..m]).NeedMore?
  {
    assert e[..m] + e[m..] == e;
    if m > 0 { ParseExtend(e[..m], e[m..]); }
  }

  /** Decoding inverts encoding, whatever follows, and no proper prefix is enough. */
  lemma RoundTrip(args: seq<Bytes>, rest: Bytes)
    requires Encodable(args)
    ensures Parse(Encode(args) + rest) == Execute(args, |Encode(args)|)
    ensures forall m :: 0 <= m < |Encode(args)| ==> Parse(Encode(args)[..m]).NeedMore?
  {
    EncodeIsRequest(args);
    var e := Encode(args);
    assert (e + rest)[..|e|] == e && e[..|e|] == e;
    ParseExact(e + rest, args, |e|);
    ParseExact(e, args, |e|);
    forall m | 0 <= m < |e| ensures Parse(e[..m]).NeedMore? {
      NoProperPrefix(e, args, m);
    }
  }

  /** The exact domain of the round trip: no empty list, no empty string, nothing too long for an int. */
  lemma RoundTripExact(args: seq<Bytes>)
    ensures Parse(Encode(args)) == Execute(args, |Encode(args)|) <==> Encodable(args)
  {
    var e := Encode(args);
    if Encodable(args) {
      RoundTrip(args, "");
      assert e + "" == e;
    } else if Parse(e) == Execute(args, |e|) {
      ExecutedRequest(e, args, |e|);
      RequestLimits(e[..|e|], args);
    }
  }

  lemma RequestLimits(request: Bytes, args: seq<Bytes>)
    requires Request(request, args)
    ensures Encodable(args)
  {
    var head, lines :| NumberLine(head, '*', |args|) && WellFormed(lines, args)
                       && request == head + "\n" + Bulks(lines, args);
    forall i | 0 <= i < |args| ensures LengthOk(|args[i]|) { assert GoodBulk(lines[i], args[i]); }
  }
}
