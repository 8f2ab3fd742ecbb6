/**
 * The line `measure` writes: `date,time,temperature,humidity` and a newline,
 * with the two means printed to one decimal.
 */
module Records {
  import opened Wrappers

  /** The date and time of day taken from the clock, already split apart. */
  datatype Timestamp = Timestamp(date: string, time: string)

  /** One logged window; temperature and humidity are in tenths. */
  datatype LogRecord = LogRecord(date: string, time: string, temperature: int, humidity: int)

  /** A field that can stand in a record without breaking it apart: no separator, no line end. */
  predicate Plain(s: string)
  {
    ',' !in s && '\n' !in s
  }

  predicate IsDigit(c: char)
  {
    '0' <= c <= '9'
  }

  function Abs(x: int): nat
  {
    if x < 0 then -x else x
  }

  function DigitChar(d: nat): (c: char)
    requires d < 10
    ensures IsDigit(c) && (c as int) - ('0' as int) == d
  {
    (('0' as int) + d) as char
  }

  function DigitValue(c: char): (d: nat)
    requires IsDigit(c)
    ensures d < 10
  {
    (c as int) - ('0' as int)
  }

  /** Decimal digits of `n`, without leading zeros. */
  function Digits(n: nat): (s: string)
    ensures |s| >= 1 && forall i :: 0 <= i < |s| ==> IsDigit(s[i])
  {
    if n < 10 then [DigitChar(n)] else Digits(n / 10) + [DigitChar(n % 10)]
  }

  /** A number of tenths the way Python prints a float rounded to one decimal: `22.0`, `-3.5`. */
  function RenderTenths(t: int): (s: string)
    ensures Plain(s) && |s| >= 3
  {
    var text := (if t < 0 then "-" else "") + Digits(Abs(t) / 10) + "." + [DigitChar(Abs(t) % 10)];
    assert forall i :: 0 <= i < |text| ==> IsDigit(text[i]) || text[i] == '-' || text[i] == '.';
    text
  }

  /** The log line, fields in the order the log files use. */
  function Format(r: LogRecord): (s: string)
    // the line leads with the date it is filed under and is newline-terminated
    ensures |s| > |r.date| + 1 && s[..|r.date|] == r.date && s[|r.date|] == ','
    ensures s[|s| - 1] == '\n'
  {
    r.date + "," + r.time + "," + RenderTenths(r.temperature) + "," + RenderTenths(r.humidity) + "\n"
  }

  // ---------------------------------------------------------------------
  // Reading a line back: the inverse a consumer of the log files applies.
  // ---------------------------------------------------------------------

  /** `s` cut at every `sep`, as Python's `str.split(sep)` does. */
  function Split(s: string, sep: char): (parts: seq<string>)
    ensures |parts| >= 1
  {
    if |s| == 0 then [""]
    else
      var rest := Split(s[1..], sep);
      if s[0] == sep then [""] + rest else [[s[0]] + rest[0]] + rest[1..]
  }

  function ParseNat(s: string): nat
    requires forall i :: 0 <= i < |s| ==> IsDigit(s[i])
  {
    if |s| == 0 then 0
    else ParseNat(s[..|s| - 1]) * 10 + DigitValue(s[|s| - 1])
  }

  /** Digits, a point and one digit, after an optional minus sign. */
  function ParseTenths(s: string): Option<int>
  {
    if |s| > 0 && s[0] == '-' then
      match ParseUnsignedTenths(s[1..])
      case None => None
      case Some(t) => Some(-(t as int))
    else ParseUnsignedTenths(s)
  }

  function ParseUnsignedTenths(s: string): Option<nat>
  {
    if |s| >= 3 && s[|s| - 2] == '.' && IsDigit(s[|s| - 1])
       && forall i :: 0 <= i < |s| - 2 ==> IsDigit(s[i])
    then Some(ParseNat(s[..|s| - 2]) * 10 + DigitValue(s[|s| - 1]))
    else None
  }

  function ParseRecord(line: string): Option<LogRecord>
  {
    if |line| == 0 || line[|line| - 1] != '\n' then None
    else
      var fields := Split(line[..|line| - 1], ',');
      if |fields| != 4 then None
      else
        match (ParseTenths(fields[2]), ParseTenths(fields[3]))
        case (Some(t), Some(h)) => Some(LogRecord(fields[0], fields[1], t, h))
        case _ => None
  }

  lemma {:induction false} ParseDigits(n: nat)
    ensures ParseNat(Digits(n)) == n
  {
    if n >= 10 {
      var s := Digits(n);
      assert s[..|s| - 1] == Digits(n / 10);
      ParseDigits(n / 10);
    }
  }

  lemma ParseRenderTenths(t: int)
    ensures ParseTenths(RenderTenths(t)) == Some(t)
  {
    var body := Digits(Abs(t) / 10) + "." + [DigitChar(Abs(t) % 10)];
    var s := RenderTenths(t);
    assert body[..|body| - 2] == Digits(Abs(t) / 10);
    ParseDigits(Abs(t) / 10);
    assert ParseUnsignedTenths(body) == Some(Abs(t));
    if t < 0 {
      assert s == "-" + body && s[1..] == body;
    } else {
      assert s == body;
    }
  }

  lemma {:induction false} SplitPlain(a: string, sep: char)
    requires sep !in a
    ensures Split(a, sep) == [a]
  {
    if |a| > 0 {
      SplitPlain(a[1..], sep);
      assert [a[0]] + a[1..] == a;
    }
  }

  /** Splitting stops at the first separator. */
  lemma {:induction false} SplitAt(a: string, sep: char, b: string)
    requires sep !in a
    ensures Split(a + [sep] + b, sep) == [a] + Split(b, sep)
  {
    if |a| == 0 {
      assert a + [sep] + b == [sep] + b;
      assert ([sep] + b)[1..] == b;
    } else {
      assert (a + [sep] + b)[1..] == a[1..] + [sep] + b;
      SplitAt(a[1..], sep, b);
      assert [a[0]] + a[1..] == a;
    }
  }

  /** Four comma-free fields joined by commas split back into those four fields. */
  lemma SplitFourFields(f0: string, f1: string, f2: string, f3: string)
    requires Plain(f0) && Plain(f1) && Plain(f2) && Plain(f3)
    ensures Split(f0 + "," + f1 + "," + f2 + "," + f3, ',') == [f0, f1, f2, f3]
  {
    var tail2 := f2 + [','] + f3;
    var tail1 := f1 + [','] + tail2;
    SplitPlain(f3, ',');
    SplitAt(f2, ',', f3);
    SplitAt(f1, ',', tail2);
    SplitAt(f0, ',', tail1);
    assert f0 + "," + f1 == f0 + [','] + f1;
    assert f0 + "," + f1 + "," + f2 == f0 + [','] + (f1 + [','] + f2);
    assert f0 + "," + f1 + "," + f2 + "," + f3 == f0 + [','] + tail1;
  }

  /**
   * A formatted line reads back as the record it came from: the field order
   * is fixed and, with plain date and time, no field runs into the next.
   */
  lemma ParseFormat(r: LogRecord)
    requires Plain(r.date) && Plain(r.time)
    ensures ParseRecord(Format(r)) == Some(r)
  {
    var t, h := RenderTenths(r.temperature), RenderTenths(r.humidity);
    var line := Format(r);
    var body := r.date + "," + r.time + "," + t + "," + h;
    assert line == body + "\n";
    assert line[..|line| - 1] == body;
    SplitFourFields(r.date, r.time, t, h);
    ParseRenderTenths(r.temperature);
    ParseRenderTenths(r.humidity);
  }

  /** How many times `c` occurs in `s`. */
  function Count(s: string, c: char): nat
  {
    if |s| == 0 then 0 else (if s[0] == c then 1 else 0) + Count(s[1..], c)
  }

  lemma {:induction false} CountAppend(a: string, b: string, c: char)
    ensures Count(a + b, c) == Count(a, c) + Count(b, c)
  {
    if |a| == 0 {
      assert a + b == b;
    } else {
      assert (a + b)[1..] == a[1..] + b;
      CountAppend(a[1..], b, c);
    }
  }

  lemma {:induction false} CountAbsent(s: string, c: char)
    requires c !in s
    ensures Count(s, c) == 0
  {
    if |s| > 0 {
      CountAbsent(s[1..], c);
    }
  }

  /** A formatted record is exactly one line: one newline, and it comes last. */
  lemma FormatIsOneLine(r: LogRecord)
    requires Plain(r.date) && Plain(r.time)
    ensures Count(Format(r), '\n') == 1
    ensures Format(r)[|Format(r)| - 1] == '\n'
  {
    var body := r.date + "," + r.time + "," + RenderTenths(r.temperature) + "," + RenderTenths(r.humidity);
    assert Format(r) == body + "\n";
    assert '\n' !in body;
    CountAbsent(body, '\n');
    CountAppend(body, "\n", '\n');
  }
}
