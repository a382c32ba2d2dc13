/** Replies as they go on the wire. */
module Replies {
  import opened ByteStrings
  import opened Numbers
  import opened Protocol

  const FALSE: Bytes := ":0\r\n"
  const TRUE: Bytes := ":1\r\n"
  const NIL: Bytes := "$-1\r\n"
  const OK: Bytes := "+OK\r\n"
  const ERROR: Bytes := "-ERR\r\n"

  /** The server writes a value as a client writes an argument. */
  function ToReplyString(s: Bytes): Bytes {
    Bulk(s)
  }

  function ToErrorReplyString(s: Bytes): Bytes {
    "-ERR " + s + CRLF
  }

  function ToInlineReplyString(s: Bytes): Bytes {
    "+" + s + CRLF
  }

  /** A bulk reply is a bulk argument: with one argument missing the argument parser takes the value
      and every byte of the reply, exactly when the value is neither empty nor too long for an int. */
  lemma ReplyIsArgument(value: Bytes)
    ensures Arguments(ToReplyString(value), 1, 1, 0, []) == Execute([value], |ToReplyString(value)|)
            <==> LengthOk(|value|)
  {
    var reply, line := ToReplyString(value), DecimalLine('$', |value|);
    assert reply == OneBulk(line, value) == reply[0..];
    if LengthOk(|value|) {
      DecimalLineOk('$', |value|);
      assert reply[0..] == OneBulk(line, value) + "";
      NextBulkOf(reply, 0, line, value, "");
      assert [] + [value] == [value];
      assert Arguments(reply, 1, 0, |reply|, [] + [value]) == Execute([value], |reply|);
    } else if Arguments(reply, 1, 1, 0, []) == Execute([value], |reply|) {
      ArgumentLength(reply, value, |reply|);
    }
  }

  lemma ArgumentLength(b: Bytes, value: Bytes, used: nat)
    requires Arguments(b, 1, 1, 0, []) == Execute([value], used)
    ensures LengthOk(|value|)
  {
    var lines, got := ArgumentsSound(b, 1, 1, 0, []);
    assert [] + got == got;
    assert [value][0] == got[0];
    WellFormedLengths(lines, got);
  }

  lemma WellFormedLengths(lines: seq<Bytes>, args: seq<Bytes>)
    requires WellFormed(lines, args)
    ensures forall i :: 0 <= i < |args| ==> LengthOk(|args[i]|)
  {
    forall i | 0 <= i < |args| ensures LengthOk(|args[i]|) { assert GoodBulk(lines[i], args[i]); }
  }

  /** A missing key and a stored value can never be mistaken for each other. */
  lemma NilIsNotAValue(value: Bytes)
    ensures ToReplyString(value) != NIL
  {
    assert IsDigit(Decimal(|value|)[0]);
    assert ToReplyString(value)[1] == Decimal(|value|)[0];
  }

  /** Different values give different replies. */
  lemma ReplyInjective(a: Bytes, b: Bytes)
    ensures ToReplyString(a) == ToReplyString(b) ==> a == b
  {
    hide Decimal;
    if ToReplyString(a) == ToReplyString(b) {
      var r := ToReplyString(a);
      var i, j := |Decimal(|a|)|, |Decimal(|b|)|;
      assert forall k :: 0 <= k < i ==> r[1 + k] == Decimal(|a|)[k];
      assert forall k :: 0 <= k < j ==> r[1 + k] == Decimal(|b|)[k];
      assert r[1 + i] == '\r' && r[1 + j] == '\r';
      assert i == j;
      assert r[1..1 + i] == Decimal(|a|) == Decimal(|b|);
      DecimalInverse(|a|);
      DecimalInverse(|b|);
      assert r[i + 3..|r| - 2] == a == b;
    }
  }
}
