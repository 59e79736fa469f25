/** The elapsed-time display: milliseconds since the first flip, shown as
    minutes and seconds, each field zero-padded to at least two digits. */
module Timer {
  import opened Options

  /** The two fields of the display. */
  datatype Clock = Clock(minutes: nat, seconds: nat)

  /** Whole minutes, and whole seconds within the minute, of `elapsed`
      milliseconds; both are rounded down. */
  function Split(elapsed: nat): (c: Clock)
    ensures c.seconds < 60
    ensures c.minutes * 60000 + c.seconds * 1000 <= elapsed < c.minutes * 60000 + c.seconds * 1000 + 1000
  {
    Clock(elapsed / 60000, (elapsed % 60000) / 1000)
  }

  /** The bounds above pin the display down: no other pair of fields
      satisfies them. */
  lemma SplitUnique(elapsed: nat, c: Clock)
    requires c.seconds < 60
    requires c.minutes * 60000 + c.seconds * 1000 <= elapsed < c.minutes * 60000 + c.seconds * 1000 + 1000
    ensures c == Split(elapsed)
  {
    var d := Split(elapsed);
    var a := c.minutes * 60 + c.seconds;
    var b := d.minutes * 60 + d.seconds;
    assert a * 1000 <= elapsed < a * 1000 + 1000;
    assert b * 1000 <= elapsed < b * 1000 + 1000;
    assert a == b;
  }

  predicate IsDigit(ch: char) { '0' <= ch <= '9' }

  predicate AllDigits(s: string) { forall i :: 0 <= i < |s| ==> IsDigit(s[i]) }

  function DigitChar(d: nat): (ch: char)
    requires d < 10
    ensures IsDigit(ch)
  {
    ('0' as int + d) as char
  }

  function DigitValue(ch: char): (d: nat)
    requires IsDigit(ch)
    ensures d < 10
  {
    ch as int - '0' as int
  }

  /** The decimal digits of a non-negative integer, most significant first,
      as JavaScript's `toString` writes them. */
  function Decimal(n: nat): (s: string)
    ensures 1 <= |s| && AllDigits(s)
    ensures |s| > 1 ==> s[0] != '0'
    ensures n < 10 ==> |s| == 1
    ensures 10 <= n < 100 ==> |s| == 2
    decreases n
  {
    if n < 10 then [DigitChar(n)] else Decimal(n / 10) + [DigitChar(n % 10)]
  }

  /** JavaScript's `padStart(2, '0')`: zeros in front up to length two; a
      longer string is left as it is. */
  function PadStart2(s: string): (r: string)
    ensures |r| == if |s| < 2 then 2 else |s|
    ensures r[|r| - |s|..] == s
    ensures forall i :: 0 <= i < |r| - |s| ==> r[i] == '0'
  {
    if |s| >= 2 then s else seq(2 - |s|, _ => '0') + s
  }

  /** One field of the display. */
  function Field(n: nat): (s: string)
    ensures 2 <= |s| && AllDigits(s)
    ensures n < 100 ==> |s| == 2
  {
    PadStart2(Decimal(n))
  }

  /** The two fields of a display and the colon between them can be read
      back from the positions counted from its end. */
  lemma ColonSplit(m: string, s: string)
    requires |s| == 2
    ensures var t := m + ":" + s;
      |t| == |m| + 3 && t[|t| - 3] == ':' && t[..|t| - 3] == m && t[|t| - 2..] == s
  {
    var t := m + ":" + s;
    assert t[..|t| - 3] == m;
    assert t[|t| - 2..] == s;
  }

  /** The number a string of decimal digits denotes; leading zeros allowed. */
  function Value(s: string): nat
    requires AllDigits(s)
  {
    if s == [] then 0 else Value(s[..|s| - 1]) * 10 + DigitValue(s[|s| - 1])
  }

  /** Reading a display back: "M…M:SS", two digits of seconds after the colon. */
  function ParseTimer(text: string): Option<Clock>
  {
    if |text| >= 4 && text[|text| - 3] == ':' && AllDigits(text[..|text| - 3]) && AllDigits(text[|text| - 2..])
    then Some(Clock(Value(text[..|text| - 3]), Value(text[|text| - 2..])))
    else None
  }

  lemma {:induction false} DecimalValue(n: nat)
    ensures Value(Decimal(n)) == n
    decreases n
  {
    if n >= 10 {
      DecimalValue(n / 10);
      var s := Decimal(n);
      assert s[..|s| - 1] == Decimal(n / 10);
    }
  }

  lemma {:induction false} LeadingZero(s: string)
    requires AllDigits(s)
    ensures Value(['0'] + s) == Value(s)
    decreases |s|
  {
    if s != [] {
      var t := ['0'] + s;
      assert t[..|t| - 1] == ['0'] + s[..|s| - 1];
      LeadingZero(s[..|s| - 1]);
    }
  }

  /** Padding does not change the number a field denotes. */
  lemma FieldValue(n: nat)
    ensures Value(Field(n)) == n
  {
    DecimalValue(n);
    var s := Decimal(n);
    if |s| < 2 {
      assert Field(n) == ['0'] + s;
      LeadingZero(s);
    }
  }

  /** A display put together from two fields of digits reads back as the
      numbers those fields denote. */
  lemma ParseFields(m: string, s: string)
    requires 1 <= |m| && |s| == 2 && AllDigits(m) && AllDigits(s)
    ensures ParseTimer(m + ":" + s) == Some(Clock(Value(m), Value(s)))
  {
    ColonSplit(m, s);
  }

  /** The text of a clock: minutes, a colon, then seconds, each field
      zero-padded to at least two digits. */
  function Display(c: Clock): (text: string)
    requires c.seconds < 60
    ensures 5 <= |text|
    ensures c.minutes < 100 ==> |text| == 5
  {
    Field(c.minutes) + ":" + Field(c.seconds)
  }

  /** Reading a clock's text back gives that clock. */
  lemma DisplayRoundTrip(c: Clock)
    requires c.seconds < 60
    ensures ParseTimer(Display(c)) == Some(c)
  {
    var m, s := Field(c.minutes), Field(c.seconds);
    assert Display(c) == m + ":" + s;
    ParseFields(m, s);
    FieldValue(c.minutes);
    FieldValue(c.seconds);
  }

  /** The text the display shows after `elapsed` milliseconds. Reading it
      back gives exactly the minutes and seconds of the elapsed time, so the
      text loses nothing. */
  function TimerText(elapsed: nat): (text: string)
    ensures 5 <= |text|
    ensures elapsed < 6000000 ==> |text| == 5
    ensures ParseTimer(text) == Some(Split(elapsed))
  {
    DisplayRoundTrip(Split(elapsed));
    Display(Split(elapsed))
  }
}
