/** toInt and the decimal printer it has to undo. */
module Numbers {
  import opened ByteStrings

  /** *begin - '0' with a signed char: codes from 128 up count as negative. */
  function Digit(c: char): int {
    (if c as int < 128 then c as int else c as int - 256) - '0' as int
  }

  /** The value accumulated by num = num * 10 + digit over d, in unbounded arithmetic. */
  function Fold(d: Bytes): int {
    if d == "" then 0 else 10 * Fold(d[..|d| - 1]) + Digit(d[|d| - 1])
  }

  /** No step of that accumulation leaves the range of a 32-bit int. */
  predicate Safe(d: Bytes) {
    d == "" || (Safe(d[..|d| - 1]) && InInt(10 * Fold(d[..|d| - 1])) && InInt(Fold(d)))
  }

  datatype Number = Overflow | Value(value: int)

  /** toInt on a line given from its marker up to, and without, the LF. */
  function ToInt(line: Bytes): (r: Number)
    requires |line| >= 1 && line[0] != '\r'
    ensures r.Value? ==> InInt(r.value)
    ensures line[|line| - 1] != '\r' ==> r == Value(-1)
  {
    if line[|line| - 1] != '\r' then Value(-1)
    else
      var digits := line[1..FindFrom(line, 1, '\r')];
      if Safe(digits) then Value(Fold(digits)) else Overflow
  }

  lemma {:induction false} SafePrefix(d: Bytes, n: nat)
    requires Safe(d) && n <= |d|
    ensures Safe(d[..n])
    decreases |d|
  {
    if n == |d| {
      assert d[..n] == d;
    } else {
      SafePrefix(d[..|d| - 1], n);
      assert d[..|d| - 1][..n] == d[..n];
    }
  }

  /** One turn of the loop extends the accumulated prefix by one byte. */
  lemma FoldStep(d: Bytes, n: nat)
    requires n < |d|
    ensures Fold(d[..n + 1]) == 10 * Fold(d[..n]) + Digit(d[n])
    ensures Safe(d[..n + 1]) ==> Safe(d[..n]) && InInt(10 * Fold(d[..n])) && InInt(Fold(d[..n + 1]))
  {
    assert d[..n + 1][..|d[..n + 1]| - 1] == d[..n];
  }

  predicate IsDigit(c: char) {
    '0' <= c <= '9'
  }

  predicate AllDigits(d: Bytes) {
    forall i :: 0 <= i < |d| ==> IsDigit(d[i])
  }

  function Pow10(k: nat): (r: nat)
    ensures r >= 1
  {
    if k == 0 then 1 else 10 * Pow10(k - 1)
  }

  /** k decimal digits denote a number in [0, 10^k). */
  lemma {:induction false} FoldBound(d: Bytes)
    requires AllDigits(d)
    ensures 0 <= Fold(d) < Pow10(|d|)
  {
    if d != "" {
      FoldBound(d[..|d| - 1]);
      assert IsDigit(d[|d| - 1]);
    }
  }

  lemma {:induction false} Pow10Monotone(j: nat, k: nat)
    requires j <= k
    ensures Pow10(j) <= Pow10(k)
  {
    if j < k { Pow10Monotone(j, k - 1); }
  }

  /** Up to nine digits never overflow, so nine-digit counts and lengths are always defined. */
  lemma {:induction false} NineDigitsAreSafe(d: Bytes)
    requires AllDigits(d) && |d| <= 9
    ensures Safe(d) && 0 <= Fold(d) < Pow10(|d|) <= 1_000_000_000
  {
    FoldBound(d);
    Pow10Monotone(|d|, 9);
    assert Pow10(9) == 1_000_000_000 by {
      assert Pow10(3) == 1000;
      assert Pow10(6) == 1_000_000;
    }
    if d != "" {
      NineDigitsAreSafe(d[..|d| - 1]);
      assert IsDigit(d[|d| - 1]);
    }
  }

  /** The decimal text printed by boost::format's %i for a non-negative number. */
  function Decimal(n: nat): (d: Bytes)
    ensures |d| >= 1 && AllDigits(d)
  {
    var last := [('0' as int + n % 10) as char];
    if n < 10 then last else Decimal(n / 10) + last
  }

  /** Accumulating the printed digits gives the number back, with no overflow on the way, and there is no
      leading zero. */
  lemma {:induction false} DecimalInverse(n: nat)
    ensures Fold(Decimal(n)) == n
    ensures Safe(Decimal(n)) <==> n <= INT_MAX
    ensures |Decimal(n)| > 1 ==> Decimal(n)[0] != '0'
  {
    var d := Decimal(n);
    if n < 10 {
      assert d[..|d| - 1] == "";
    } else {
      DecimalInverse(n / 10);
      assert d[..|d| - 1] == Decimal(n / 10);
    }
  }

  lemma DecimalStep(m: nat, r: nat)
    requires m >= 1 && r < 10
    ensures Decimal(10 * m + r) == Decimal(m) + [('0' as int + r) as char]
  {
    assert (10 * m + r) / 10 == m && (10 * m + r) % 10 == r;
  }

  lemma DecimalDigit(r: nat)
    requires r < 10
    ensures Decimal(r) == [('0' as int + r) as char]
  {}

  /** A text of digits is one digit longer than another. */
  lemma LastDigit(d: Bytes) returns (init: Bytes, r: nat)
    requires d != "" && AllDigits(d)
    ensures r < 10 && AllDigits(init) && d == init + [('0' as int + r) as char]
    ensures Fold(d) == (if init == "" then 0 else 10 * Fold(init)) + r
  {
    init := d[..|d| - 1];
    assert IsDigit(d[|d| - 1]);
    r := d[|d| - 1] as int - '0' as int;
  }

  lemma {:induction false} DecimalOfFold(d: Bytes)
    requires d != "" && AllDigits(d) && (|d| > 1 ==> d[0] != '0')
    ensures Fold(d) >= 0 && Decimal(Fold(d)) == d
    decreases |d|
  {
    hide Decimal, AllDigits, Fold;
    var init, r := LastDigit(d);
    if init == "" {
      DecimalDigit(r);
      assert d == [('0' as int + r) as char];
    } else {
      assert init[0] == d[0];
      LeadingDigit(init);
      DecimalOfFold(init);
      DecimalStep(Fold(init), r);
    }
  }

  /** The text without a leading zero that denotes n is the printed one, and no other. */
  lemma DecimalCanonical(d: Bytes, n: nat)
    requires d != "" && AllDigits(d) && (|d| > 1 ==> d[0] != '0')
    ensures Fold(d) == n <==> d == Decimal(n)
  {
    hide Decimal, Fold;
    DecimalOfFold(d);
    DecimalInverse(n);
  }

  lemma {:induction false} LeadingDigit(d: Bytes)
    requires d != "" && AllDigits(d) && d[0] != '0'
    ensures Fold(d) >= 1
  {
    assert IsDigit(d[0]) && IsDigit(d[|d| - 1]);
    if |d| > 1 {
      assert d[..|d| - 1][0] == d[0];
      LeadingDigit(d[..|d| - 1]);
    }
  }

  /** toInt on a printed line recovers the number exactly when it fits an int. */
  lemma ToIntOfDecimal(marker: char, n: nat)
    requires marker != '\r'
    ensures ToInt([marker] + Decimal(n) + "\r") == if n <= INT_MAX then Value(n) else Overflow
  {
    var line := [marker] + Decimal(n) + "\r";
    var cr := |line| - 1;
    forall k | 1 <= k < cr ensures line[k] != '\r' {
      assert line[k] == Decimal(n)[k - 1];
      assert IsDigit(Decimal(n)[k - 1]);
    }
    FindFromIs(line, 1, '\r', cr);
    assert line[1..cr] == Decimal(n);
    DecimalInverse(n);
  }

  // ---- What a number line denotes, byte by byte ----

  /** Every byte by its place: its code as a signed char, less that of '0', times a power of ten. */
  function Positional(d: Bytes): int {
    if d == "" then 0
    else
      ((if d[0] as int < 128 then d[0] as int else d[0] as int - 256) - 48) * Pow10(|d| - 1) + Positional(d[1..])
  }

  /** A byte more: everything moves one place up. */
  lemma {:induction false} PositionalAppend(d: Bytes, c: char)
    ensures Positional(d + [c])
         == 10 * Positional(d) + (if c as int < 128 then c as int else c as int - 256) - 48
  {
    if d == "" {
      assert d + [c] == [c] && [c][1..] == "";
      assert Pow10(0) == 1;
    } else {
      assert (d + [c])[0] == d[0] && (d + [c])[1..] == d[1..] + [c];
      PositionalAppend(d[1..], c);
      var code := (if d[0] as int < 128 then d[0] as int else d[0] as int - 256) - 48;
      assert Pow10(|d|) == 10 * Pow10(|d| - 1);
      TenTimes(code, Pow10(|d| - 1));
    }
  }

  lemma TenTimes(a: int, b: int)
    ensures a * (10 * b) == 10 * (a * b)
  {}

  /** The accumulation computes the positional value ... */
  lemma {:induction false} FoldIsPositional(d: Bytes)
    ensures Fold(d) == Positional(d)
  {
    if d != "" {
      var init, last := d[..|d| - 1], d[|d| - 1];
      FoldIsPositional(init);
      PositionalAppend(init, last);
      assert d == init + [last];
    }
  }

  /** The step from k to k + 1 bytes stays within a 32-bit int, the multiplication included. */
  predicate StepFits(d: Bytes, k: nat)
    requires k < |d|
  {
    && -2147483648 <= 10 * Positional(d[..k]) <= 2147483647
    && -2147483648 <= Positional(d[..k + 1]) <= 2147483647
  }

  /** ... and overflows exactly when one of its steps does not fit. */
  lemma {:induction false} SafeIsPositional(d: Bytes)
    ensures Safe(d) <==> forall k: nat :: k < |d| ==> StepFits(d, k)
  {
    if d != "" {
      var n := |d| - 1;
      var init := d[..n];
      SafeIsPositional(init);
      FoldIsPositional(init);
      FoldIsPositional(d);
      assert d[..n + 1] == d;
      assert StepFits(d, n) <==> InInt(10 * Fold(init)) && InInt(Fold(d));
      forall k: nat | k < n ensures StepFits(d, k) <==> StepFits(init, k) {
        assert d[..k] == init[..k] && d[..k + 1] == init[..k + 1];
      }
    }
  }

  /** What toInt makes of a line, in full. */
  lemma ToIntIs(line: Bytes, d: Bytes, junk: Bytes)
    requires line != "" && line[0] != '\r' && Parts(line, d, junk)
    ensures ToInt(line) == if forall k: nat :: k < |d| ==> StepFits(d, k) then Value(Positional(d)) else Overflow
  {
    hide Safe, Fold, Positional, ToInt, StepFits;
    PartsRead(line, d, junk);
    SafeIsPositional(d);
    FoldIsPositional(d);
  }

  /** One byte for the whole number: its code as a signed char, less 48. */
  lemma OneByte(marker: char, c: char)
    requires marker != '\r' && c != '\r' && c as int < 256
    ensures ToInt([marker, c, '\r']) == Value(if c as int < 128 then c as int - 48 else c as int - 304)
  {
    var line := [marker, c, '\r'];
    assert line == [line[0]] + [c] + "\r" + "";
    OneDigit(c);
    PartsRead(line, [c], "");
  }

  /** A minus sign is the digit minus three, so what follows it cannot make the number positive. */
  lemma {:induction false} MinusFold(d: Bytes)
    requires AllDigits(d)
    ensures Fold("-" + d) == Fold(d) - 3 * Pow10(|d|) < 0
    ensures |d| <= 8 ==> Safe("-" + d) && Fold("-" + d) >= -300_000_000
    decreases |d|
  {
    FoldBound(d);
    var s := "-" + d;
    if d == "" {
      assert s == ['-'];
      OneDigit('-');
    } else {
      var init := d[..|d| - 1];
      assert s[..|s| - 1] == "-" + init && s[|s| - 1] == d[|d| - 1];
      assert IsDigit(d[|d| - 1]);
      MinusFold(init);
    }
    if |d| <= 8 {
      Pow10Monotone(|d|, 8);
      assert Pow10(8) == 100_000_000 by {
        assert Pow10(4) == 10_000;
      }
    }
  }

  /** A line with a minus sign: never a positive number. */
  lemma MinusLine(marker: char, d: Bytes)
    requires marker != '\r' && AllDigits(d)
    ensures ToInt([marker] + "-" + d + "\r").Value? ==> ToInt([marker] + "-" + d + "\r").value < 0
    ensures |d| <= 8 ==> ToInt([marker] + "-" + d + "\r").Value?
  {
    hide Safe, Fold;
    var line := [marker] + "-" + d + "\r";
    assert line == [line[0]] + ("-" + d) + "\r" + "";
    forall k | 0 <= k < |"-" + d| ensures ("-" + d)[k] != '\r' {
      if k > 0 { assert IsDigit(d[k - 1]); }
    }
    PartsRead(line, "-" + d, "");
    MinusFold(d);
  }

  // ---- What toInt accepts as a number, said without the scan ----

  /** line is its marker, then d up to the first CR, then whatever, and it ends in CR. */
  predicate Parts(line: Bytes, d: Bytes, junk: Bytes)
    requires line != ""
  {
    && line == [line[0]] + d + "\r" + junk
    && (forall k :: 0 <= k < |d| ==> d[k] != '\r')
    && (junk != "" ==> junk[|junk| - 1] == '\r')
  }

  ghost predicate Denotes(line: Bytes, n: int)
    requires line != ""
  {
    exists d, junk :: Parts(line, d, junk) && Safe(d) && Fold(d) == n
  }

  lemma PartsRead(line: Bytes, d: Bytes, junk: Bytes)
    requires line != "" && line[0] != '\r' && Parts(line, d, junk)
    ensures ToInt(line) == if Safe(d) then Value(Fold(d)) else Overflow
  {
    var cr := 1 + |d|;
    assert forall k :: 1 <= k < cr ==> line[k] == d[k - 1];
    assert line[cr] == '\r';
    assert junk != "" ==> line[|line| - 1] == junk[|junk| - 1];
    FindFromIs(line, 1, '\r', cr);
    assert line[1..cr] == d;
  }

  lemma PartsOf(line: Bytes) returns (d: Bytes, junk: Bytes)
    requires line != "" && line[0] != '\r' && line[|line| - 1] == '\r'
    ensures Parts(line, d, junk)
  {
    var cr := FindFrom(line, 1, '\r');
    assert cr <= |line| - 1;
    d, junk := line[1..cr], line[cr + 1..];
    assert line == [line[0]] + d + [line[cr]] + junk;
    assert junk != "" ==> junk[|junk| - 1] == line[|line| - 1];
  }

  /** A line is read as the positive number n exactly when it denotes n. */
  lemma DenotesExact(line: Bytes, n: int)
    requires line != "" && line[0] != '\r' && n > 0
    ensures Denotes(line, n) <==> ToInt(line) == Value(n)
  {
    hide Safe, Fold;
    forall d, junk | Parts(line, d, junk) && Safe(d) && Fold(d) == n ensures ToInt(line) == Value(n) {
      PartsRead(line, d, junk);
    }
    if ToInt(line) == Value(n) {
      var d, junk := PartsOf(line);
      PartsRead(line, d, junk);
    }
  }

  /** Accumulating the digits leaves the range of an int. */
  ghost predicate TooBig(line: Bytes)
    requires line != ""
  {
    exists d, junk :: Parts(line, d, junk) && !Safe(d)
  }

  /** No CR at the end, or a number that is not positive. */
  ghost predicate NoCount(line: Bytes)
    requires line != ""
  {
    line[|line| - 1] != '\r' || exists d, junk :: Parts(line, d, junk) && Safe(d) && Fold(d) <= 0
  }

  /** The other two outcomes of toInt. */
  lemma NumberOutcomes(line: Bytes)
    requires line != "" && line[0] != '\r'
    ensures TooBig(line) <==> ToInt(line).Overflow?
    ensures NoCount(line) <==> ToInt(line).Value? && ToInt(line).value <= 0
  {
    hide Safe, Fold;
    forall d, junk | Parts(line, d, junk) ensures ToInt(line) == if Safe(d) then Value(Fold(d)) else Overflow {
      PartsRead(line, d, junk);
    }
    forall d, junk | Parts(line, d, junk) ensures line[|line| - 1] == '\r' {
      LastByte(line, d, junk);
    }
    if line[|line| - 1] == '\r' {
      var d, junk := PartsOf(line);
    }
  }

  lemma LastByte(line: Bytes, d: Bytes, junk: Bytes)
    requires line != "" && Parts(line, d, junk)
    ensures line[|line| - 1] == '\r'
  {}

  /** A number line as the protocol documents it: the marker, decimal digits, CR. */
  ghost predicate Documented(line: Bytes, n: int)
    requires line != ""
  {
    exists d :: d != "" && AllDigits(d) && line == [line[0]] + d + "\r" && Fold(d) == n
  }

  /** Which of the lines that denote a positive number are documented ones: those with nothing but
      digits between the marker and the final CR. */
  lemma DocumentedExact(line: Bytes, n: int)
    requires line != "" && n > 0 && Denotes(line, n)
    ensures Documented(line, n) <==> AllDigits(line[1..|line| - 1])
  {
    var d, junk :| Parts(line, d, junk) && Safe(d) && Fold(d) == n;
    var middle := line[1..|line| - 1];
    if Documented(line, n) {
      var e :| e != "" && AllDigits(e) && line == [line[0]] + e + "\r" && Fold(e) == n;
      assert middle == e;
    }
    if AllDigits(middle) {
      forall k | 1 <= k < |line| - 1 ensures IsDigit(line[k]) { assert middle[k - 1] == line[k]; }
      assert line[1 + |d|] == '\r' && !IsDigit('\r');
      assert junk == "" && middle == d;
      assert line == [line[0]] + d + "\r";
    }
  }

  /** The code reads more than the documented numbers: a colon is the digit ten, and what follows the
      first CR does not matter. */
  lemma LooseNumbers()
    ensures ToInt("*:\r") == Value(10) && !Documented("*:\r", 10)
    ensures ToInt("*1\rjunk\r") == Value(1) && !Documented("*1\rjunk\r", 1)
  {
    hide ToInt, Documented;
    OneDigit(':');
    OneDigit('1');
    Undocumented("*:\r", ":", "", 10, 1);
    Undocumented("*1\rjunk\r", "1", "junk\r", 1, 2);
  }

  lemma OneDigit(c: char)
    ensures Safe([c]) && Fold([c]) == Digit(c)
  {
    assert [c][..|[c]| - 1] == "";
    assert Safe("") && Fold([c]) == 10 * Fold("") + Digit(c);
    assert InInt(10 * Fold("")) && InInt(Fold([c]));
  }

  /** A line with something else than a digit before its last byte. */
  lemma Undocumented(line: Bytes, d: Bytes, junk: Bytes, n: int, at: nat)
    requires line != "" && line[0] != '\r' && Parts(line, d, junk) && Safe(d) && Fold(d) == n > 0
    requires 1 <= at < |line| - 1 && !IsDigit(line[at])
    ensures ToInt(line) == Value(n) && !Documented(line, n)
  {
    hide Safe, Fold;
    PartsRead(line, d, junk);
    DocumentedExact(line, n);
    assert line[1..|line| - 1][at - 1] == line[at];
  }
}
