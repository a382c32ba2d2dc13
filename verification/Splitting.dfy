/** split: cutting an inline request line into arguments. */
module Splitting {
  import opened ByteStrings

  /** The first position from `from` on that does not hold c. */
  function SkipFrom(b: Bytes, from: nat, c: char): (i: nat)
    requires from <= |b|
    ensures from <= i <= |b|
    ensures forall k :: from <= k < i ==> b[k] == c
    ensures i < |b| ==> b[i] != c
    decreases |b| - from
  {
    if from < |b| && b[from] == c then SkipFrom(b, from + 1, c) else from
  }

  /** The tokens of a line: cut at a delimiter, then skip the whole run of delimiters. */
  function Split(line: Bytes, c: char): (tokens: seq<Bytes>)
    ensures |tokens| >= 1
    decreases |line|
  {
    var found := FindFrom(line, 0, c);
    var next := SkipFrom(line, found, c);
    [line[..found]] + if next == |line| then [] else Split(line[next..], c)
  }

  lemma FindFromShift(b: Bytes, n: nat, c: char)
    requires n <= |b|
    ensures FindFrom(b, n, c) == n + FindFrom(b[n..], 0, c)
  {
    var i := n + FindFrom(b[n..], 0, c);
    if i < |b| {
      forall k | n <= k < i ensures b[k] != c { assert b[n..][k - n] != c; }
      FindFromIs(b, n, c, i);
    } else {
      forall k | n <= k < |b| ensures b[k] != c { assert b[n..][k - n] != c; }
    }
  }

  lemma SkipFromIs(b: Bytes, from: nat, c: char, i: nat)
    requires from <= i <= |b| && (i < |b| ==> b[i] != c)
    requires forall k :: from <= k < i ==> b[k] == c
    ensures SkipFrom(b, from, c) == i
  {
    var j := SkipFrom(b, from, c);
    assert j >= i;
  }

  // ---- What the tokens are, said without the scan ----

  predicate Free(t: Bytes, c: char) {
    forall k :: 0 <= k < |t| ==> t[k] != c
  }

  function Run(c: char, n: nat): (r: Bytes)
    ensures |r| == n && forall k :: 0 <= k < n ==> r[k] == c
  {
    seq(n, _ => c)
  }

  /** Tokens written out with gaps[i] delimiters after token i. */
  function Spaced(tokens: seq<Bytes>, gaps: seq<nat>, c: char): Bytes
    requires |gaps| == |tokens|
  {
    if tokens == [] then "" else tokens[0] + Run(c, gaps[0]) + Spaced(tokens[1..], gaps[1..], c)
  }

  /** Tokens hold no delimiter, only the first may be empty, and only the last may lack a gap. */
  predicate WellSpaced(tokens: seq<Bytes>, gaps: seq<nat>, c: char) {
    && |gaps| == |tokens| >= 1
    && (forall i :: 0 <= i < |tokens| ==> Free(tokens[i], c))
    && (forall i :: 1 <= i < |tokens| ==> tokens[i] != "")
    && (forall i :: 0 <= i < |tokens| - 1 ==> gaps[i] >= 1)
  }

  lemma {:induction false} SplitOfSpaced(tokens: seq<Bytes>, gaps: seq<nat>, c: char)
    requires WellSpaced(tokens, gaps, c)
    ensures Split(Spaced(tokens, gaps, c), c) == tokens
    decreases |tokens|
  {
    var line := Spaced(tokens, gaps, c);
    var rest := Spaced(tokens[1..], gaps[1..], c);
    var f, g := |tokens[0]|, |tokens[0]| + gaps[0];
    assert line == tokens[0] + Run(c, gaps[0]) + rest;
    assert line[..f] == tokens[0] && line[g..] == rest;
    forall k | f <= k < g ensures line[k] == c { assert line[k] == Run(c, gaps[0])[k - f]; }
    assert forall k :: 0 <= k < f ==> line[k] == tokens[0][k];
    if |tokens| > 1 {
      assert rest == tokens[1] + Run(c, gaps[1]) + Spaced(tokens[1..][1..], gaps[1..][1..], c);
      assert line[g] == rest[0] == tokens[1][0];
      FindFromIs(line, 0, c, f);
      SkipFromIs(line, f, c, g);
      SplitOfSpaced(tokens[1..], gaps[1..], c);
    } else {
      assert rest == "";
      if gaps[0] > 0 { FindFromIs(line, 0, c, f); }
      SkipFromIs(line, f, c, g);
    }
  }

  lemma SpacedCons(token: Bytes, gap: nat, tokens: seq<Bytes>, gaps: seq<nat>, c: char)
    requires |gaps| == |tokens|
    ensures Spaced([token] + tokens, [gap] + gaps, c) == token + Run(c, gap) + Spaced(tokens, gaps, c)
    ensures WellSpaced(tokens, gaps, c) && Free(token, c) && gap >= 1 && tokens[0] != "" ==>
              WellSpaced([token] + tokens, [gap] + gaps, c)
  {
    assert ([token] + tokens)[1..] == tokens && ([gap] + gaps)[1..] == gaps;
  }

  lemma OneToken(token: Bytes, gap: nat, c: char)
    ensures Spaced([token], [gap], c) == token + Run(c, gap)
    ensures Free(token, c) ==> WellSpaced([token], [gap], c)
  {
    assert Spaced([token], [gap], c) == token + Run(c, gap) + "";
  }

  /** One cut of split: a token, a run of delimiters, and what is left. */
  lemma Cut(line: Bytes, c: char) returns (f: nat, g: nat)
    ensures f <= g <= |line| && line == line[..f] + Run(c, g - f) + line[g..]
    ensures Free(line[..f], c) && (g < |line| ==> line[g] != c && f < g)
    ensures line != "" && line[0] != c ==> f > 0
    ensures Split(line, c) == [line[..f]] + if g == |line| then [] else Split(line[g..], c)
  {
    f := FindFrom(line, 0, c);
    g := SkipFrom(line, f, c);
    hide FindFrom, SkipFrom;
    assert line[f..g] == Run(c, g - f);
  }

  lemma {:induction false} SplitIsSpaced(line: Bytes, c: char) returns (gaps: seq<nat>)
    ensures WellSpaced(Split(line, c), gaps, c)
    ensures Spaced(Split(line, c), gaps, c) == line
    ensures line != "" && line[0] != c ==> Split(line, c)[0] != ""
    decreases |line|
  {
    hide Split, Spaced, Run;
    var f, g := Cut(line, c);
    if g == |line| {
      gaps := [g - f];
      OneToken(line[..f], g - f, c);
      assert line == line[..f] + Run(c, g - f);
      assert Split(line, c) == [line[..f]];
    } else {
      var more := SplitIsSpaced(line[g..], c);
      gaps := [g - f] + more;
      SpacedCons(line[..f], g - f, Split(line[g..], c), more, c);
    }
  }

  /** split, characterised: it returns exactly the well-spaced reading of the line. */
  lemma SplitExact(line: Bytes, tokens: seq<Bytes>, c: char)
    ensures Split(line, c) == tokens <==>
            exists gaps :: WellSpaced(tokens, gaps, c) && line == Spaced(tokens, gaps, c)
  {
    var gaps := SplitIsSpaced(line, c);
    forall gaps | WellSpaced(tokens, gaps, c) && line == Spaced(tokens, gaps, c)
      ensures Split(line, c) == tokens
    {
      SplitOfSpaced(tokens, gaps, c);
    }
  }

  /** The line with its delimiters removed. */
  function Strip(line: Bytes, c: char): Bytes {
    if line == "" then "" else (if line[0] == c then "" else [line[0]]) + Strip(line[1..], c)
  }

  lemma {:induction false} StripAppend(a: Bytes, b: Bytes, c: char)
    ensures Strip(a + b, c) == Strip(a, c) + Strip(b, c)
  {
    if a == "" {
      assert a + b == b;
    } else {
      assert (a + b)[1..] == a[1..] + b;
      StripAppend(a[1..], b, c);
    }
  }

  lemma {:induction false} StripFree(t: Bytes, c: char)
    requires Free(t, c)
    ensures Strip(t, c) == t
  {
    if t != "" { StripFree(t[1..], c); }
  }

  lemma {:induction false} StripRun(c: char, n: nat)
    ensures Strip(Run(c, n), c) == ""
  {
    if n > 0 {
      assert Run(c, n)[1..] == Run(c, n - 1);
      StripRun(c, n - 1);
    }
  }

  lemma StripToken(token: Bytes, gap: nat, rest: Bytes, c: char)
    requires Free(token, c)
    ensures Strip(token + Run(c, gap) + rest, c) == token + Strip(rest, c)
  {
    StripAppend(token + Run(c, gap), rest, c);
    StripAppend(token, Run(c, gap), c);
    StripFree(token, c);
    StripRun(c, gap);
    assert token + "" == token;
  }

  lemma {:induction false} StripSpaced(tokens: seq<Bytes>, gaps: seq<nat>, c: char)
    requires |gaps| == |tokens| && forall i :: 0 <= i < |tokens| ==> Free(tokens[i], c)
    ensures Strip(Spaced(tokens, gaps, c), c) == Flatten(tokens)
  {
    if tokens != [] {
      StripToken(tokens[0], gaps[0], Spaced(tokens[1..], gaps[1..], c), c);
      StripSpaced(tokens[1..], gaps[1..], c);
    }
  }

  /** No byte of the line but the delimiters is lost, added or moved. */
  lemma SplitKeepsBytes(line: Bytes, c: char)
    ensures Flatten(Split(line, c)) == Strip(line, c)
  {
    var gaps := SplitIsSpaced(line, c);
    StripSpaced(Split(line, c), gaps, c);
  }
}
