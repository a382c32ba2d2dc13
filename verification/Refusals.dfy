/** When a multi-bulk request is refused, undefined, or incomplete, said without the scan; and which
    streams of chunks can never be undefined.
 */
module Refusals {
  import opened ByteStrings
  import opened Numbers
  import opened Protocol
  import opened InlineRequests
  import opened Streams

  // ---- A bulk that cannot be read ----

  /** The length line is none, or the bytes it announces do not end in CR LF. */
  ghost predicate BadLine(line: Bytes, more: Bytes) {
    || line == "" || line[0] != '$' || NoCount(line)
    || exists n: nat :: NumberLine(line, '$', n) && n + 2 <= INT_MAX && |more| >= n + 2 && more[n..n + 2] != CRLF
  }

  /** The length, or the length plus two, is no int. */
  ghost predicate HugeLine(line: Bytes) {
    line != "" && line[0] == '$' &&
    (TooBig(line) || exists n: nat :: NumberLine(line, '$', n) && n + 2 > INT_MAX)
  }

  ghost predicate BadBulk(tail: Bytes) {
    exists line, more :: tail == line + "\n" + more && NoLF(line) && BadLine(line, more)
  }

  ghost predicate HugeBulk(tail: Bytes) {
    exists line, more :: tail == line + "\n" + more && NoLF(line) && HugeLine(line)
  }

  /** How a bulk that starts with a complete line is read. */
  lemma LineOutcomes(b: Bytes, off: nat, line: Bytes, more: Bytes)
    requires off <= |b| && b[off..] == line + "\n" + more && NoLF(line)
    ensures NextBulk(b, off).Bad? <==> BadLine(line, more)
    ensures NextBulk(b, off).TooLarge? <==> HugeLine(line)
  {
    hide ToInt, TooBig, NoCount, NumberLine;
    var lf := off + |line|;
    LineAt(b, off, line, more);
    NumberLineFound(b, off, line);
    if line != "" && line[0] == '$' {
      NumberOutcomes(line);
      forall n: nat ensures NumberLine(line, '$', n) <==> n > 0 && ToInt(line) == Value(n) {
        NumberLineRead(line, '$', n);
      }
      if ToInt(line).Value? && 0 < ToInt(line).value <= |more| - 2 {
        var n := ToInt(line).value;
        assert b[lf + 1..][n..n + 2] == b[lf + 1 + n..lf + 1 + n + 2];
      }
    }
  }

  lemma LineAt(b: Bytes, off: nat, line: Bytes, more: Bytes)
    requires off <= |b| && b[off..] == line + "\n" + more
    ensures var lf := off + |line|;
            lf < |b| && b[off..lf] == line && b[lf] == '\n' && b[lf + 1..] == more
            && (line != "" ==> b[off] == line[0]) && (line == "" ==> b[off] == '\n')
  {
    var lf, s := off + |line|, b[off..];
    assert s[..|line|] == line && s[|line|] == '\n' && s[|line| + 1..] == more;
    Within(b, off, 0, |line|);
    assert b[lf + 1..] == s[|line| + 1..];
  }

  lemma LineFrom(b: Bytes, off: nat) returns (line: Bytes, more: Bytes)
    requires off <= |b| && FindFrom(b, off, '\n') < |b|
    ensures b[off..] == line + "\n" + more && NoLF(line)
  {
    var lf := FindFrom(b, off, '\n');
    line, more := b[off..lf], b[lf + 1..];
    assert b[off..] == b[off..lf] + [b[lf]] + b[lf + 1..];
  }

  lemma BulkOutcomes(b: Bytes, off: nat)
    requires off <= |b|
    ensures NextBulk(b, off).Bad? <==> BadBulk(b[off..])
    ensures NextBulk(b, off).TooLarge? <==> HugeBulk(b[off..])
  {
    hide NextBulk, BadLine, HugeLine;
    forall line, more | b[off..] == line + "\n" + more && NoLF(line)
      ensures NextBulk(b, off).Bad? <==> BadLine(line, more)
      ensures NextBulk(b, off).TooLarge? <==> HugeLine(line)
    {
      LineOutcomes(b, off, line, more);
    }
    if FindFrom(b, off, '\n') < |b| {
      var line, more := LineFrom(b, off);
    } else {
      NoLineShort(b, off);
    }
  }

  lemma NoLineShort(b: Bytes, off: nat)
    requires off <= |b| && FindFrom(b, off, '\n') == |b|
    ensures NextBulk(b, off).Short?
  {}

  // ---- The request up to where it cannot be read on ----

  /** b begins a request for n arguments: args are there, in full, and tail is what follows them. */
  ghost predicate Begun(b: Bytes, n: nat, args: seq<Bytes>, tail: Bytes) {
    |args| < n &&
    exists head, lines :: NumberLine(head, '*', n) && WellFormed(lines, args)
                          && b == head + "\n" + Bulks(lines, args) + tail
  }

  ghost predicate RefusedRequest(b: Bytes) {
    || (exists head, more :: b == head + "\n" + more && head != "" && NoLF(head) && NoCount(head))
    || (exists n: nat, args, tail :: Begun(b, n, args, tail) && BadBulk(tail))
  }

  ghost predicate OverflowingRequest(b: Bytes) {
    || (exists head, more :: b == head + "\n" + more && head != "" && NoLF(head) && TooBig(head))
    || (exists n: nat, args, tail :: Begun(b, n, args, tail) && HugeBulk(tail))
  }

  lemma NoBulks(b: Bytes, off: nat)
    requires off <= |b|
    ensures WellFormed([], []) && b[off..off] == Bulks([], [])
  {}

  lemma BulkInFront(b: Bytes, off: nat, next: nat, stop: nat, line: Bytes, arg: Bytes,
                    lines: seq<Bytes>, got: seq<Bytes>)
    requires WellFormed(lines, got) && GoodBulk(line, arg) && off <= next <= stop <= |b|
    requires b[off..next] == OneBulk(line, arg) && b[next..stop] == Bulks(lines, got)
    ensures WellFormed([line] + lines, [arg] + got) && b[off..stop] == Bulks([line] + lines, [arg] + got)
  {
    hide Bulks, OneBulk, GoodBulk;
    BulksCons(line, arg, lines, got);
    assert b[off..stop] == b[off..next] + b[next..stop];
  }

  /** The scan of the arguments, up to the first that is not read. */
  lemma {:induction false} ScanStops(b: Bytes, total: int, left: nat, off: nat, saved: seq<Bytes>)
      returns (lines: seq<Bytes>, got: seq<Bytes>, stop: nat)
    requires off <= |b|
    ensures WellFormed(lines, got) && |got| <= left && off <= stop <= |b| && b[off..stop] == Bulks(lines, got)
    ensures Arguments(b, total, left, off, saved) == Arguments(b, total, left - |got|, stop, saved + got)
    ensures |got| < left ==> !NextBulk(b, stop).Got?
    decreases left
  {
    hide NextBulk, NumberLine, OneBulk, Bulks, WellFormed, GoodBulk;
    if left > 0 && NextBulk(b, off).Got? {
      var arg, next := NextBulk(b, off).arg, NextBulk(b, off).next;
      var line := NextBulkSound(b, off);
      lines, got, stop := ScanStops(b, total, left - 1, next, saved + [arg]);
      ArgumentsStep(b, total, left, off, saved);
      BulkInFront(b, off, next, stop, line, arg, lines, got);
      assert saved + [arg] + got == saved + ([arg] + got);
      lines, got := [line] + lines, [arg] + got;
    } else {
      lines, got, stop := [], [], off;
      NoBulks(b, off);
      assert saved + [] == saved;
    }
  }

  /** The verdict when the next argument cannot be read. */
  predicate SameKind(v: Verdict, item: Item) {
    && (v.Reject? <==> item.Bad?) && (v.Undefined? <==> item.TooLarge?)
    && (item.Short? ==> v.NeedMore?)
  }

  lemma StoppedKind(b: Bytes, total: int, left: nat, off: nat, args: seq<Bytes>)
    requires off <= |b| && left > 0 && !NextBulk(b, off).Got?
    ensures SameKind(Arguments(b, total, left, off, args), NextBulk(b, off))
  {
    hide NextBulk;
    ArgumentsStep(b, total, left, off, args);
  }

  /** The verdict once the header has been read. */
  lemma HeaderVerdict(b: Bytes, head: Bytes, more: Bytes)
    requires b == head + "\n" + more && NoLF(head) && head != "" && head[0] == '*'
    ensures Parse(b) == match ToInt(head)
                        case Overflow => Undefined
                        case Value(n) => if n <= 0 then Reject else Arguments(b, n, n, |head| + 1, [])
  {
    hide ToInt, Arguments;
    assert b[0..] == b;
    LineAt(b, 0, head, more);
    NumberLineFound(b, 0, head);
  }

  lemma BegunVerdict(b: Bytes, n: nat, args: seq<Bytes>, tail: Bytes)
    requires Begun(b, n, args, tail) && (BadBulk(tail) || HugeBulk(tail))
    ensures b != "" && b[0] == '*'
    ensures BadBulk(tail) ==> Parse(b).Reject?
    ensures HugeBulk(tail) ==> Parse(b).Undefined?
  {
    hide ToInt, NextBulk, Arguments, Parse, Bulks, BadBulk, HugeBulk, Denotes;
    var head, lines :| NumberLine(head, '*', n) && WellFormed(lines, args)
                       && b == head + "\n" + Bulks(lines, args) + tail;
    NumberLineRead(head, '*', n);
    var more := Bulks(lines, args) + tail;
    assert b == head + "\n" + more;
    HeaderVerdict(b, head, more);
    assert b[0..] == b;
    LineAt(b, 0, head, more);
    ArgumentsSkip(b, n, n, |head| + 1, [], lines, args, tail);
    var off := |b| - |tail|;
    BulkOutcomes(b, off);
    StoppedKind(b, n, n - |args|, off, [] + args);
  }

  /** Where a request with a good header stops. */
  lemma BegunAt(b: Bytes, head: Bytes, more: Bytes, n: nat) returns (args: seq<Bytes>, tail: Bytes)
    requires b == head + "\n" + more && NumberLine(head, '*', n) && !Parse(b).Execute?
    ensures Begun(b, n, args, tail)
    ensures Parse(b).Reject? <==> BadBulk(tail)
    ensures Parse(b).Undefined? <==> HugeBulk(tail)
  {
    hide ToInt, NextBulk, Arguments, Parse, Bulks, BadBulk, HugeBulk, Denotes;
    NumberLineRead(head, '*', n);
    HeaderVerdict(b, head, more);
    var off := |head| + 1;
    var lines, got, stop := ScanStops(b, n, n, off, []);
    if |got| == n { NoneLeft(b, n, stop, [] + got); }
    StoppedKind(b, n, n - |got|, stop, [] + got);
    BulkOutcomes(b, stop);
    args, tail := got, b[stop..];
    assert b[..off] == head + "\n";
    assert b == b[..off] + b[off..stop] + b[stop..];
  }

  /** Exactly which requests are refused ... */
  lemma RejectExact(b: Bytes)
    requires b != "" && b[0] == '*'
    ensures Parse(b).Reject? <==> RefusedRequest(b)
  {
    Unreadable(b);
  }

  /** ... and which drive an int out of its range. */
  lemma UndefinedExact(b: Bytes)
    requires b != "" && b[0] == '*'
    ensures Parse(b).Undefined? <==> OverflowingRequest(b)
  {
    Unreadable(b);
  }

  lemma Unreadable(b: Bytes)
    requires b != "" && b[0] == '*'
    ensures Parse(b).Reject? <==> RefusedRequest(b)
    ensures Parse(b).Undefined? <==> OverflowingRequest(b)
  {
    hide ToInt, Parse, Begun, BadBulk, HugeBulk, NumberLine, NoCount, TooBig;
    forall head, more | b == head + "\n" + more && head != "" && NoLF(head)
      ensures NoCount(head) ==> Parse(b).Reject?
      ensures TooBig(head) ==> Parse(b).Undefined?
    {
      assert head[0] == b[0];
      HeaderVerdict(b, head, more);
      NumberOutcomes(head);
    }
    forall n: nat, args, tail | Begun(b, n, args, tail) && (BadBulk(tail) || HugeBulk(tail))
      ensures BadBulk(tail) ==> Parse(b).Reject?
      ensures HugeBulk(tail) ==> Parse(b).Undefined?
    {
      BegunVerdict(b, n, args, tail);
    }
    if Parse(b).Reject? || Parse(b).Undefined? {
      HeaderComplete(b);
      assert b[0..] == b;
      var head, more := LineFrom(b, 0);
      assert head != "" && head[0] == b[0];
      HeaderVerdict(b, head, more);
      NumberOutcomes(head);
      if ToInt(head).Value? && ToInt(head).value > 0 {
        var n: nat := ToInt(head).value;
        NumberLineRead(head, '*', n);
        var args, tail := BegunAt(b, head, more, n);
      }
    }
  }

  lemma HeaderComplete(b: Bytes)
    requires b != "" && b[0] == '*' && !Parse(b).NeedMore?
    ensures FindFrom(b, 0, '\n') < |b|
  {}

  // ---- A minus sign ----

  /** A negative count: refused, or undefined when it has very many digits; never a command. */
  lemma NegativeCount(d: Bytes, rest: Bytes)
    requires AllDigits(d)
    ensures var v := Parse("*-" + d + CRLF + rest);
            (v.Reject? || v.Undefined?) && (|d| <= 8 ==> v.Reject?)
  {
    hide ToInt, Parse;
    var head, b := ['*'] + "-" + d + "\r", "*-" + d + CRLF + rest;
    assert b == head + "\n" + rest;
    MinusLineNoLF('*', d);
    MinusLine('*', d);
    HeaderVerdict(b, head, rest);
  }

  /** A negative length, the nil bulk reply's for one. */
  lemma NegativeLength(b: Bytes, off: nat, d: Bytes, rest: Bytes)
    requires off <= |b| && b[off..] == "$-" + d + CRLF + rest && AllDigits(d)
    ensures (NextBulk(b, off).Bad? || NextBulk(b, off).TooLarge?) && (|d| <= 8 ==> NextBulk(b, off).Bad?)
  {
    hide ToInt, NoCount, TooBig, NextBulk;
    var line := ['$'] + "-" + d + "\r";
    assert b[off..] == line + "\n" + rest;
    MinusLineNoLF('$', d);
    MinusLine('$', d);
    NumberOutcomes(line);
    LineOutcomes(b, off, line, rest);
  }

  lemma MinusLineNoLF(marker: char, d: Bytes)
    requires marker != '\n' && AllDigits(d)
    ensures NoLF([marker] + "-" + d + "\r")
  {
    var line := [marker] + "-" + d + "\r";
    forall k | 0 <= k < |line| ensures line[k] != '\n' {
      if 2 <= k < |line| - 1 { assert IsDigit(d[k - 2]); }
    }
  }

  // ---- Streams that are never undefined ----

  /** The number on a line, if there is one, has at most nine digits and nothing but digits. */
  ghost predicate ShortLine(line: Bytes)
    requires line != ""
  {
    forall d, junk :: Parts(line, d, junk) ==> AllDigits(d) && |d| <= 9
  }

  /** So it is for all lines that could be taken for a number line, wherever they are. */
  ghost predicate ShortNumbers(b: Bytes) {
    forall i, j | 0 <= i < j < |b| && (b[i] == '*' || b[i] == '$') && b[j] == '\n' && NoLF(b[i..j]) ::
      ShortLine(b[i..j])
  }

  lemma ShortIsSmall(line: Bytes)
    requires line != "" && ShortLine(line)
    ensures !TooBig(line)
    ensures forall n: nat :: NumberLine(line, '$', n) ==> n + 2 <= INT_MAX
  {
    hide Safe, Fold;
    forall d, junk | Parts(line, d, junk) ensures Safe(d) && Fold(d) <= 1_000_000_000 {
      NineDigitsAreSafe(d);
    }
  }

  /** A request whose number lines are all short is never undefined. */
  lemma ShortNumbersAreDefined(b: Bytes)
    requires b != "" && b[0] == '*' && ShortNumbers(b)
    ensures !Parse(b).Undefined?
  {
    hide Parse, TooBig, ShortLine, NumberLine;
    UndefinedExact(b);
    if OverflowingRequest(b) {
      if head, more :| b == head + "\n" + more && head != "" && NoLF(head) && TooBig(head) {
        assert b == "" + head + "\n" + more;
        LineIsShort(b, "", head, more);
        ShortIsSmall(head);
      } else {
        var n: nat, args, tail :| Begun(b, n, args, tail) && HugeBulk(tail);
        var front := BeforeTail(b, n, args, tail);
        var line, more :| tail == line + "\n" + more && NoLF(line) && HugeLine(line);
        assert b == front + line + "\n" + more;
        LineIsShort(b, front, line, more);
        ShortIsSmall(line);
      }
    }
  }

  lemma BeforeTail(b: Bytes, n: nat, args: seq<Bytes>, tail: Bytes) returns (front: Bytes)
    requires Begun(b, n, args, tail)
    ensures b == front + tail
  {
    var head, lines :| NumberLine(head, '*', n) && WellFormed(lines, args)
                       && b == head + "\n" + Bulks(lines, args) + tail;
    front := head + "\n" + Bulks(lines, args);
  }

  lemma LineIsShort(b: Bytes, front: Bytes, line: Bytes, more: Bytes)
    requires ShortNumbers(b) && b == front + line + "\n" + more
    requires line != "" && (line[0] == '*' || line[0] == '$') && NoLF(line)
    ensures ShortLine(line)
  {
    var i, j := |front|, |front| + |line|;
    assert b[i..j] == line && b[i] == line[0] && b[j] == '\n';
  }

  lemma ShortParts(a: Bytes, b: Bytes)
    requires ShortNumbers(a + b)
    ensures ShortNumbers(a) && ShortNumbers(b)
  {
    hide ShortLine;
    var s := a + b;
    forall i, j | 0 <= i < j < |a| && (a[i] == '*' || a[i] == '$') && a[j] == '\n' && NoLF(a[i..j])
      ensures ShortLine(a[i..j])
    {
      assert s[i..j] == a[i..j] && s[i] == a[i] && s[j] == a[j];
    }
    forall i, j | 0 <= i < j < |b| && (b[i] == '*' || b[i] == '$') && b[j] == '\n' && NoLF(b[i..j])
      ensures ShortLine(b[i..j])
    {
      var k := |a|;
      assert s[k + i..k + j] == b[i..j] && s[k + i] == b[i] && s[k + j] == b[j];
    }
  }

  /** No chunk that arrives with nothing buffered begins with LF. */
  predicate IdleStartsClean(p: Progress, chunks: seq<Bytes>)
    decreases |chunks|
  {
    chunks == [] ||
    ((p.pending == "" && chunks[0] != "" ==> chunks[0][0] != '\n')
     && IdleStartsClean(Feed(p, chunks[0]), chunks[1..]))
  }

  /** Whatever a client sends, malformed or not, and however it is cut: if all its number lines are short,
      something undefined happens exactly when a chunk begins with LF while nothing is buffered. */
  lemma {:induction false} ShortStreamsExact(p: Progress, chunks: seq<Bytes>)
    requires Parse(p.pending).NeedMore? && ShortNumbers(p.pending + Flatten(chunks))
    ensures Defined(p, chunks) <==> IdleStartsClean(p, chunks)
    decreases |chunks|
  {
    hide Parse, ShortNumbers;
    if chunks != [] {
      var b, rest := p.pending + chunks[0], Flatten(chunks[1..]);
      assert b + rest == p.pending + Flatten(chunks);
      ShortParts(b, rest);
      OneChunkDefined(p.pending, chunks[0]);
      assert "" + rest == rest;
      NothingBuffered();
      ShortStreamsExact(Feed(p, chunks[0]), chunks[1..]);
    }
  }

  lemma NothingBuffered()
    ensures Parse("").NeedMore?
  {}

  lemma OneChunkDefined(pending: Bytes, chunk: Bytes)
    requires Parse(pending).NeedMore? && ShortNumbers(pending + chunk)
    ensures Parse(pending + chunk).Undefined? <==> pending == "" && chunk != "" && chunk[0] == '\n'
  {
    hide ShortNumbers;
    ResumeInvariant(pending);
    NothingBuffered();
    var b := pending + chunk;
    hide Parse;
    if b != "" {
      assert b[0] == if pending != "" then pending[0] else chunk[0];
      if b[0] == '*' { ShortNumbersAreDefined(b); } else { InlineOutcomes(b); }
    }
  }

  /** No chunk begins with LF. */
  predicate NoLeadingLF(chunks: seq<Bytes>) {
    forall i :: 0 <= i < |chunks| && chunks[i] != "" ==> chunks[i][0] != '\n'
  }

  /** A client that never begins a chunk with LF is safe without keeping track of what is buffered. */
  lemma ShortStreamsAreDefined(p: Progress, chunks: seq<Bytes>)
    requires Parse(p.pending).NeedMore?
    requires ShortNumbers(p.pending + Flatten(chunks)) && NoLeadingLF(chunks)
    ensures Defined(p, chunks)
  {
    hide Parse, ShortNumbers, Defined;
    ShortStreamsExact(p, chunks);
    AlwaysClean(p, chunks);
  }

  lemma {:induction false} AlwaysClean(p: Progress, chunks: seq<Bytes>)
    requires NoLeadingLF(chunks)
    ensures IdleStartsClean(p, chunks)
    decreases |chunks|
  {
    hide Feed;
    if chunks != [] {
      assert forall i :: 0 <= i < |chunks| - 1 ==> chunks[1..][i] == chunks[i + 1];
      AlwaysClean(Feed(p, chunks[0]), chunks[1..]);
    }
  }
}
