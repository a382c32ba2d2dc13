/** Byte strings and the two library primitives the parser leans on: memchr and concatenation.

    A C++ char is a Dafny char here.  The C++ program only ever sees codes below 256; no
    statement in this project needs that bound, so none assumes it.
 */
module ByteStrings {
  type Bytes = string

  /** A command and its arguments: there is always the name. */
  type Command = c: seq<Bytes> | c != [] witness [""]

  datatype Option<+T> = None | Some(value: T)

  const INT_MAX: int := 0x7fff_ffff
  const INT_MIN: int := -0x8000_0000

  const CRLF: Bytes := "\r\n"

  predicate InInt(n: int) {
    INT_MIN <= n <= INT_MAX
  }

  /** memchr over b[from..]: the first position of c, or |b| where memchr returns null. */
  function FindFrom(b: Bytes, from: nat, c: char): (i: nat)
    requires from <= |b|
    ensures from <= i <= |b|
    ensures forall k :: from <= k < i ==> b[k] != c
    ensures i < |b| ==> b[i] == c
    decreases |b| - from
  {
    if from == |b| || b[from] == c then from else FindFrom(b, from + 1, c)
  }

  /** A hit inside a buffer is still the hit once more bytes have been appended. */
  lemma FindFromExtend(b: Bytes, x: Bytes, from: nat, c: char)
    requires from <= |b|
    requires FindFrom(b, from, c) < |b|
    ensures FindFrom(b + x, from, c) == FindFrom(b, from, c)
  {
    var i, j := FindFrom(b, from, c), FindFrom(b + x, from, c);
    assert (b + x)[i] == c;
    assert forall k :: from <= k < i ==> (b + x)[k] == b[k];
  }

  /** The first occurrence is the one position with no occurrence before it. */
  lemma FindFromIs(b: Bytes, from: nat, c: char, i: nat)
    requires from <= i < |b| && b[i] == c
    requires forall k :: from <= k < i ==> b[k] != c
    ensures FindFrom(b, from, c) == i
  {
    var j := FindFrom(b, from, c);
    assert j <= i;
  }

  function Flatten(chunks: seq<Bytes>): Bytes {
    if chunks == [] then "" else chunks[0] + Flatten(chunks[1..])
  }

  lemma {:induction false} FlattenAppend(a: seq<Bytes>, b: seq<Bytes>)
    ensures Flatten(a + b) == Flatten(a) + Flatten(b)
  {
    if a == [] {
      assert a + b == b;
    } else {
      assert (a + b)[1..] == a[1..] + b;
      FlattenAppend(a[1..], b);
    }
  }
}
