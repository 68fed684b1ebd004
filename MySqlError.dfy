/** lib/MySqlError.js: the error a failed authentication reports, and its
    printed form. */
module MySqlErrors {
  import opened Octets
  import opened JsOps

  /** The three fields the constructor stores as given, without any check;
      `None` is JavaScript's null. */
  datatype MySqlError = MySqlError(no: int, state: Option<JsString>, message: Option<JsString>)

  /** A literal written as the code units of its characters. */
  function Units(s: string): (r: JsString)
    ensures |r| == |s|
  {
    seq(|s|, i requires 0 <= i < |s| => (s[i] as int) % 0x1_0000)
  }

  const MINUS: CodeUnit := 45
  const ZERO: CodeUnit := 48
  const COLON: CodeUnit := 58

  /** The decimal digits of `n`, most significant first, without leading
      zeros. */
  function Digits(n: nat): (r: JsString)
    ensures |r| >= 1
    ensures forall i :: 0 <= i < |r| ==> ZERO <= r[i] < ZERO + 10
    decreases n
  {
    if n < 10 then [ZERO + n] else Digits(n / 10) + [ZERO + n % 10]
  }

  /** `"" + n` for an integer number: its digits, after a minus sign when it
      is negative. */
  function Decimal(n: int): (r: JsString)
    ensures |r| >= 1 && COLON !in r
    ensures n >= 0 <==> r[0] != MINUS
  {
    if n < 0 then [MINUS] + Digits(-n) else Digits(n)
  }

  /** How string concatenation shows a message: null prints as "null". */
  function Shown(message: Option<JsString>): JsString
  {
    if message.None? then Units("null") else message.value
  }

  /** MySqlError.prototype.toString: "MySqlError " + no + ": " + message.
      The state does not appear. */
  function ToString(e: MySqlError): (r: JsString)
    ensures |r| > 13
  {
    Units("MySqlError ") + Decimal(e.no) + Units(": ") + Shown(e.message)
  }

  /** The value of a run of decimal digits, read left to right. */
  function DigitsValue(s: JsString): int
  {
    if s == [] then 0 else 10 * DigitsValue(s[..|s| - 1]) + (s[|s| - 1] - ZERO)
  }

  /** The number a decimal rendering stands for. */
  function DecimalValue(s: JsString): int
  {
    if |s| > 0 && s[0] == MINUS then -DigitsValue(s[1..]) else DigitsValue(s)
  }

  /** Reading the digits back gives the number. */
  lemma {:induction false} DigitsRoundTrip(n: nat)
    ensures DigitsValue(Digits(n)) == n
    decreases n
  {
    if n >= 10 {
      var d := Digits(n);
      assert d[..|d| - 1] == Digits(n / 10);
      DigitsRoundTrip(n / 10);
    }
  }

  /** The decimal rendering of a number reads back as that number. */
  lemma DecimalRoundTrip(n: int)
    ensures DecimalValue(Decimal(n)) == n
  {
    if n < 0 {
      var d := Digits(-n);
      var s := [MINUS] + d;
      assert s[0] == MINUS && s[1..] == d;
      assert DecimalValue(s) == -DigitsValue(d);
      DigitsRoundTrip(-n);
    } else {
      var d := Digits(n);
      assert d[0] != MINUS;
      assert DecimalValue(d) == DigitsValue(d);
      DigitsRoundTrip(n);
    }
  }

  /** Two errors that differ only in their state print the same. */
  lemma IgnoresState(e: MySqlError, state: Option<JsString>)
    ensures ToString(e.(state := state)) == ToString(e)
  {
  }

  /** The printed form determines the number and the shown message: the
      number ends at the first colon, which a decimal rendering never
      holds. */
  lemma ToStringDetermines(e: MySqlError, f: MySqlError)
    requires ToString(e) == ToString(f)
    ensures e.no == f.no && Shown(e.message) == Shown(f.message)
  {
    var head := Units("MySqlError ");
    var sep := Units(": ");
    assert sep == [COLON] + Units(" ");
    var x := Decimal(e.no) + [COLON] + (Units(" ") + Shown(e.message));
    var y := Decimal(f.no) + [COLON] + (Units(" ") + Shown(f.message));
    assert ToString(e) == head + x && ToString(f) == head + y;
    assert x == y by {
      assert x == ToString(e)[|head|..] && y == ToString(f)[|head|..];
    }
    SplitAtMark(Decimal(e.no), Units(" ") + Shown(e.message), Decimal(f.no), Units(" ") + Shown(f.message), COLON);
    DecimalRoundTrip(e.no);
    DecimalRoundTrip(f.no);
    assert Shown(e.message) == (Units(" ") + Shown(e.message))[1..];
    assert Shown(f.message) == (Units(" ") + Shown(f.message))[1..];
  }

  /** A mark that occurs in neither front part splits two equal sequences at
      the same place. */
  lemma SplitAtMark(a: JsString, x: JsString, b: JsString, y: JsString, mark: CodeUnit)
    requires mark !in a && mark !in b
    requires a + [mark] + x == b + [mark] + y
    ensures a == b && x == y
  {
    var s := a + [mark] + x;
    assert s[|a|] == mark && s[|b|] == mark;
    BeforeMark(a, x, mark);
    BeforeMark(b, y, mark);
    assert |a| == |b|;
    assert a == s[..|a|] && b == (b + [mark] + y)[..|b|];
    assert x == s[|a| + 1..] && y == (b + [mark] + y)[|b| + 1..];
  }

  /** Every position before the mark holds something else. */
  lemma BeforeMark(a: JsString, x: JsString, mark: CodeUnit)
    requires mark !in a
    ensures forall i :: 0 <= i < |a| ==> (a + [mark] + x)[i] != mark
  {
  }

  /** A null message and the message "null" print the same. */
  lemma NullMessageLooksLikeText(no: int, state: Option<JsString>)
    ensures ToString(MySqlError(no, state, None)) == ToString(MySqlError(no, state, Some(Units("null"))))
  {
  }
}
