/** Inline requests: when a line of words means the same as its multi-bulk encoding. */
module InlineRequests {
  import opened ByteStrings
  import opened Splitting
  import opened Protocol

  /** Non-empty words without space or LF. */
  predicate Words(tokens: seq<Bytes>) {
    && tokens != []
    && forall i :: 0 <= i < |tokens| ==> tokens[i] != "" && Free(tokens[i], ' ') && Free(tokens[i], '\n')
  }

  predicate Gaps(tokens: seq<Bytes>, gaps: seq<nat>) {
    |gaps| == |tokens| && forall i :: 0 <= i < |tokens| - 1 ==> gaps[i] >= 1
  }

  /** The words, gaps[i] spaces after word i, and LF or CRLF. */
  function Line(tokens: seq<Bytes>, gaps: seq<nat>, crlf: bool): Bytes
    requires |gaps| == |tokens|
  {
    Spaced(tokens, gaps, ' ') + if crlf then CRLF else "\n"
  }

  lemma {:induction false} SpacedWords(tokens: seq<Bytes>, gaps: seq<nat>)
    requires Words(tokens) && |gaps| == |tokens|
    ensures var s := Spaced(tokens, gaps, ' ');
            s != "" && s[0] == tokens[0][0] && Free(s, '\n')
  {
    var rest := Spaced(tokens[1..], gaps[1..], ' ');
    if |tokens| > 1 {
      SpacedWords(tokens[1..], gaps[1..]);
    }
    var s := tokens[0] + Run(' ', gaps[0]) + rest;
    assert Free(Run(' ', gaps[0]), '\n') && Free(rest, '\n');
    assert Free(tokens[0] + Run(' ', gaps[0]), '\n');
    assert s == Spaced(tokens, gaps, ' ');
  }

  /** What the parser makes of such a line, in terms of split alone. */
  lemma LineVerdict(tokens: seq<Bytes>, gaps: seq<nat>, crlf: bool, rest: Bytes)
    requires Words(tokens) && Gaps(tokens, gaps) && tokens[0][0] != '*'
    ensures var s, line := Spaced(tokens, gaps, ' '), Line(tokens, gaps, crlf);
            var kept := if !crlf && s[|s| - 1] == '\r' then s[..|s| - 1] else s;
            var words := Split(kept, ' ');
            s != "" && Parse(line + rest) == if words[0] == "" then Reject else Execute(words, |line|)
  {
    hide Split, Spaced, FindFrom;
    SpacedWords(tokens, gaps);
    var s, line := Spaced(tokens, gaps, ' '), Line(tokens, gaps, crlf);
    var b, lf := line + rest, |line| - 1;
    assert forall k :: 0 <= k < |s| ==> b[k] == s[k];
    assert crlf ==> b[lf - 1] == '\r';
    FindFromIs(b, 0, '\n', lf);
    assert crlf ==> b[..lf - 1] == s;
    assert !crlf ==> b[..lf] == s && b[..lf - 1] == s[..|s| - 1];
  }

  /** A line read as a request starting with '*' never executes on its own. */
  lemma StarLineWaits(line: Bytes)
    requires line != "" && line[0] == '*' && FindFrom(line, 0, '\n') == |line| - 1
    ensures !Parse(line).Execute?
  {
    assert FindFrom(line, |line|, '\n') == |line|;
  }

  /** Dropping a CR that belongs to the last word loses a byte, so the words differ. */
  lemma TrimmedWordsDiffer(s: Bytes, tokens: seq<Bytes>)
    requires s != "" && s[|s| - 1] == '\r' && tokens == Split(s, ' ')
    ensures Split(s[..|s| - 1], ' ') != tokens
  {
    hide Split;
    var t := s[..|s| - 1];
    SplitKeepsBytes(s, ' ');
    SplitKeepsBytes(t, ' ');
    StripAppend(t, "\r", ' ');
    assert t + "\r" == s;
    assert Strip("\r", ' ') == "\r" + Strip("", ' ');
    assert |Strip(s, ' ')| == |Strip(t, ' ')| + 1;
  }

  /** The line executes its words exactly when it is not taken for a bulk header and no CR of the
      last word is taken for part of the line end. */
  lemma InlineExact(tokens: seq<Bytes>, gaps: seq<nat>, crlf: bool)
    requires Words(tokens) && Gaps(tokens, gaps)
    ensures var s, line := Spaced(tokens, gaps, ' '), Line(tokens, gaps, crlf);
            s != "" &&
            (Parse(line) == Execute(tokens, |line|) <==> s[0] != '*' && (crlf || s[|s| - 1] != '\r'))
  {
    hide Split, Spaced, Strip;
    SpacedWords(tokens, gaps);
    SplitOfSpaced(tokens, gaps, ' ');
    var s, line := Spaced(tokens, gaps, ' '), Line(tokens, gaps, crlf);
    if s[0] == '*' {
      if crlf && s[|s| - 1] == '\r' { assert line[|line| - 2] == '\r'; }
      assert forall k :: 0 <= k < |s| ==> line[k] == s[k];
      FindFromIs(line, 0, '\n', |line| - 1);
      StarLineWaits(line);
    } else {
      LineVerdict(tokens, gaps, crlf, "");
      assert line + "" == line;
      if !crlf && s[|s| - 1] == '\r' {
        TrimmedWordsDiffer(s, tokens);
      }
    }
  }

  /** line is one way to send these words as an inline request: spaces at will between and after them,
      CR LF or LF at the end, but no CR of the last word right before a bare LF. */
  ghost predicate InlineLine(tokens: seq<Bytes>, line: Bytes) {
    && Words(tokens) && tokens[0][0] != '*'
    && exists gaps, crlf :: Gaps(tokens, gaps) && line == Line(tokens, gaps, crlf)
                            && (crlf || (|line| >= 2 && line[|line| - 2] != '\r'))
  }

  lemma InlineLineExecutes(tokens: seq<Bytes>, line: Bytes)
    requires InlineLine(tokens, line)
    ensures Parse(line) == Execute(tokens, |line|)
  {
    hide Parse, Spaced;
    var gaps, crlf :| Gaps(tokens, gaps) && line == Line(tokens, gaps, crlf)
                      && (crlf || (|line| >= 2 && line[|line| - 2] != '\r'));
    SpacedWords(tokens, gaps);
    InlineExact(tokens, gaps, crlf);
  }

  /** Inline and multi-bulk agree: the same words are executed, whatever follows the line. */
  lemma InlineBulkEquivalence(tokens: seq<Bytes>, gaps: seq<nat>, crlf: bool, rest: Bytes)
    requires Words(tokens) && Gaps(tokens, gaps) && Encodable(tokens)
    requires tokens[0][0] != '*'
    requires crlf || tokens[|tokens| - 1][|tokens[|tokens| - 1]| - 1] != '\r'
    ensures Parse(Line(tokens, gaps, crlf) + rest) == Execute(tokens, |Line(tokens, gaps, crlf)|)
    ensures Parse(Encode(tokens) + rest) == Execute(tokens, |Encode(tokens)|)
  {
    hide Split, Parse;
    RoundTrip(tokens, rest);
    LineVerdict(tokens, gaps, crlf, rest);
    SplitOfSpaced(tokens, gaps, ' ');
    if !crlf { SpacedEnd(tokens, gaps); }
  }

  lemma {:induction false} SpacedEnd(tokens: seq<Bytes>, gaps: seq<nat>)
    requires Words(tokens) && |gaps| == |tokens|
    ensures var s, last := Spaced(tokens, gaps, ' '), tokens[|tokens| - 1];
            s != "" && (s[|s| - 1] == ' ' || s[|s| - 1] == last[|last| - 1])
    decreases |tokens|
  {
    if |tokens| > 1 {
      SpacedEnd(tokens[1..], gaps[1..]);
    } else {
      assert Spaced(tokens, gaps, ' ') == tokens[0] + Run(' ', gaps[0]);
    }
  }

  // ---- Any inline request ----

  lemma FirstToken(line: Bytes, c: char)
    ensures Split(line, c)[0] == "" <==> line == "" || line[0] == c
  {}

  /** What becomes of an inline request can be told from its first bytes and whether there is an LF:
      undefined when it begins with LF, for then the parser looks at the byte before its buffer;
      refused without an LF, or when it begins with a space or is an empty line; executed otherwise. */
  lemma InlineOutcomes(b: Bytes)
    requires b != "" && b[0] != '*'
    ensures Parse(b).Undefined? <==> b[0] == '\n'
    ensures Parse(b).Reject? <==> '\n' !in b || b[0] == ' ' || (b[0] == '\r' && |b| > 1 && b[1] == '\n')
  {
    hide Split;
    var lf := FindFrom(b, 0, '\n');
    if lf < |b| {
      assert b[lf] in b;
      if lf > 0 {
        var kept := b[..if b[lf - 1] == '\r' then lf - 1 else lf];
        FirstToken(kept, ' ');
        assert kept != "" ==> kept[0] == b[0];
      }
    }
  }

  /** A request of one line: its only LF is its last byte. */
  predicate OneLine(b: Bytes) {
    b != "" && FindFrom(b, 0, '\n') == |b| - 1
  }

  /** The line without its LF and one CR before it. */
  function Kept(b: Bytes): Bytes
    requires |b| >= 2
  {
    if b[|b| - 2] == '\r' then b[..|b| - 2] else b[..|b| - 1]
  }

  lemma OneLineVerdict(b: Bytes)
    requires OneLine(b) && |b| >= 2 && b[0] != '*'
    ensures Parse(b).Execute? ==> Parse(b).args == Split(Kept(b), ' ')
  {
    hide Split;
  }

  /** The words of a line are not those of what is left of it when a part is cut off in front. */
  lemma CutWordsDiffer(part: Bytes, rest: Bytes)
    requires part != "" && part[0] != ' ' && |rest| >= 2
    ensures Split(Kept(part + rest), ' ') != Split(Kept(rest), ' ')
  {
    hide Split, Strip;
    var whole := part + rest;
    assert whole[|whole| - 2] == rest[|rest| - 2];
    assert Kept(whole) == part + Kept(rest);
    SplitKeepsBytes(Kept(whole), ' ');
    SplitKeepsBytes(Kept(rest), ' ');
    StripAppend(part, Kept(rest), ' ');
    StripStart(part, ' ');
  }

  lemma StripStart(b: Bytes, c: char)
    requires b != "" && b[0] != c
    ensures |Strip(b, c)| >= 1
  {}

  /** One word on a line. */
  lemma OneWord(word: Bytes)
    requires word != "" && Free(word, ' ') && Free(word, '\n') && word[0] != '*' && word[|word| - 1] != '\r'
    ensures Parse(word + "\n") == Execute([word], |word| + 1)
  {
    hide Split, Parse;
    InlineExact([word], [0], false);
    assert Spaced([word][1..], [0][1..], ' ') == "";
    assert Run(' ', 0) == "";
    assert Spaced([word], [0], ' ') == word;
  }
}
