/** `SwissArmyKnife`: zero-padded number formatting, the formatting of a
    duration, the assignability checks that let a primitive type accept its
    wrapper, the cursor over the declared fields of a class and its
    superclasses, and the single-match rule of `inject`. */
module SwissArmyKnife {
  import opened Lang
  import opened World
  import opened Sequences

  // ---------------------------------------------------------------------
  // Decimal text
  // ---------------------------------------------------------------------

  function Pow10(k: nat): (r: nat)
    ensures r >= 1 && (k >= 1 ==> r >= 10)
  {
    if k == 0 then 1 else 10 * Pow10(k - 1)
  }

  predicate IsDigit(c: char)
  {
    '0' <= c <= '9'
  }

  function DigitChar(d: nat): (c: char)
    requires d < 10
    ensures IsDigit(c) && c as int - '0' as int == d
  {
    ('0' as int + d) as char
  }

  /** `Long.toString(n)` for `n >= 0`: no sign, no leading zero. */
  function Decimal(n: nat): (s: string)
    ensures |s| >= 1
  {
    if n < 10 then [DigitChar(n)] else Decimal(n / 10) + [DigitChar(n % 10)]
  }

  /** The value a string of decimal digits stands for, leading zeros allowed. */
  function DecimalValue(s: string): int
  {
    if s == [] then 0 else 10 * DecimalValue(s[..|s| - 1]) + (s[|s| - 1] as int - '0' as int)
  }

  /** Reading back the decimal text of `n` gives `n`. */
  lemma {:induction false} DecimalRoundTrip(n: nat)
    ensures DecimalValue(Decimal(n)) == n
  {
    if n >= 10 {
      DecimalRoundTrip(n / 10);
      var s := Decimal(n);
      assert s[..|s| - 1] == Decimal(n / 10);
    }
  }

  /** `n` has at most `k` decimal digits exactly when it is below `10^k`. */
  lemma {:induction false} DecimalLength(n: nat, k: nat)
    requires k >= 1
    ensures n < Pow10(k) <==> |Decimal(n)| <= k
  {
    if n >= 10 && k >= 2 {
      DecimalLength(n / 10, k - 1);
    }
  }

  /** `k` zeros (none when `k <= 0`). */
  function Zeros(k: int): (s: string)
    ensures |s| == if k > 0 then k else 0
  {
    if k <= 0 then [] else Zeros(k - 1) + "0"
  }

  /** Zeros and decimal text are made of digits only. */
  lemma {:induction false} AllDigits(k: int, n: nat)
    ensures forall i :: 0 <= i < |Zeros(k)| ==> Zeros(k)[i] == '0'
    ensures forall i :: 0 <= i < |Decimal(n)| ==> IsDigit(Decimal(n)[i])
    decreases if k > n then k else n
  {
    if k > 0 {
      AllDigits(k - 1, 0);
    }
    if n >= 10 {
      AllDigits(0, n / 10);
    }
  }

  lemma {:induction false} ZerosAdd(a: nat, b: nat)
    ensures Zeros(a) + Zeros(b) == Zeros(a + b)
  {
    if b > 0 {
      ZerosAdd(a, b - 1);
    }
  }

  /** Leading zeros do not change the value of a digit string. */
  lemma {:induction false} ZerosValue(k: int, s: string)
    ensures DecimalValue(Zeros(k) + s) == DecimalValue(s)
    decreases |s|, k
  {
    if s == [] {
      assert Zeros(k) + s == Zeros(k);
      if k > 0 {
        ZerosValue(k - 1, []);
        assert Zeros(k - 1) + [] == Zeros(k - 1);
        assert Zeros(k)[..k - 1] == Zeros(k - 1);
      }
    } else {
      var t := Zeros(k) + s;
      ZerosValue(k, s[..|s| - 1]);
      assert t[..|t| - 1] == Zeros(k) + s[..|s| - 1];
    }
  }

  /** What `appendNumber(sb, num, digits)` appends: a `'-'` for a negative
      number, which does not count into `digits`, then as many zeros as the
      digits of `|num|` fall short of `digits`, then `|num|` in decimal. */
  function Padded(num: int, digits: int): string
  {
    var m := if num < 0 then -num else num;
    (if num < 0 then "-" else "") + Zeros(digits - |Decimal(m)|) + Decimal(m)
  }

  /** `Long.parseLong` on an optional `'-'` followed by decimal digits. */
  function ReadNumber(s: string): Option<int>
  {
    if s != [] && s[0] == '-' then
      if |s| >= 2 && forall k :: 1 <= k < |s| ==> IsDigit(s[k]) then Some(-DecimalValue(s[1..])) else None
    else if s != [] && forall k :: 0 <= k < |s| ==> IsDigit(s[k]) then Some(DecimalValue(s))
    else None
  }

  /** The padded text is never truncated: it is `max(digits, d)` characters
      long after the sign, where `d` is the number of digits of `|num|`, and
      it reads back as `num`, whatever `digits` is. */
  lemma PaddedRoundTrip(num: int, digits: int)
    ensures var m := if num < 0 then -num else num;
      |Padded(num, digits)| == (if num < 0 then 1 else 0) + (if digits > |Decimal(m)| then digits else |Decimal(m)|)
    ensures ReadNumber(Padded(num, digits)) == Some(num)
  {
    var m := if num < 0 then -num else num;
    var zeros, text := Zeros(digits - |Decimal(m)|), Decimal(m);
    ZerosValue(digits - |Decimal(m)|, text);
    DecimalRoundTrip(m);
    AllDigits(digits - |Decimal(m)|, m);
    ReadDigits(zeros, text, num < 0);
    Associate3(if num < 0 then "-" else "", zeros, text);
  }

  /** A non-empty run of digits, with or without a leading `'-'`, reads back
      as its value or the negation of its value. */
  lemma ReadDigits(zeros: string, text: string, negative: bool)
    requires text != []
    requires forall i :: 0 <= i < |zeros| ==> zeros[i] == '0'
    requires forall i :: 0 <= i < |text| ==> IsDigit(text[i])
    ensures var v := DecimalValue(zeros + text);
      ReadNumber((if negative then "-" else "") + (zeros + text)) == Some(if negative then -v else v)
  {
    var body := zeros + text;
    assert forall k :: 0 <= k < |body| ==> IsDigit(body[k]);
    if negative {
      assert ("-" + body)[1..] == body;
    } else {
      assert "" + body == body;
    }
  }

  /** `String.valueOf(Long.MAX_VALUE).length()`. */
  const LONG_MAX_DIGITS := 19

  /** `LONG_MAX_DIGITS` is the number of characters of `Long.MAX_VALUE` in decimal. */
  lemma LongMaxDigits()
    ensures |Decimal(LONG_MAX)| == LONG_MAX_DIGITS
  {
    Pow10Bounds();
    DecimalLength(LONG_MAX, 19);
    DecimalLength(LONG_MAX, 18);
  }

  /** `Long.MAX_VALUE` lies between `10^18` and `10^19`. */
  lemma Pow10Bounds()
    ensures Pow10(18) == 1_000_000_000_000_000_000
    ensures Pow10(18) <= LONG_MAX < Pow10(19)
  {
    assert Pow10(1) == 10;
    assert Pow10(2) == 100;
    assert Pow10(3) == 1000;
    assert Pow10(4) == 10000;
    assert Pow10(5) == 100000;
    assert Pow10(6) == 1000000;
    assert Pow10(7) == 10000000;
    assert Pow10(8) == 100000000;
    assert Pow10(9) == 1000000000;
    assert Pow10(10) == 10000000000;
    assert Pow10(11) == 100000000000;
    assert Pow10(12) == 1000000000000;
    assert Pow10(13) == 10000000000000;
    assert Pow10(14) == 100000000000000;
    assert Pow10(15) == 1000000000000000;
    assert Pow10(16) == 10000000000000000;
    assert Pow10(17) == 100000000000000000;
    assert Pow10(18) == 1000000000000000000;
    assert Pow10(19) == 10000000000000000000;
  }

  /** `DIGI`: entry `i` holds `10^i` for `1 <= i < 19`; entry 0 is never read. */
  const DIGI: seq<int> := seq(LONG_MAX_DIGITS, DigiEntry)

  function DigiEntry(i: int): int
  {
    if i <= 0 then 0 else Pow10(i)
  }

  /** The static initializer of `DIGI`: an array with one entry per digit
      of `Long.MAX_VALUE`, filled with successive powers of ten. */
  method InitDigi() returns (digi: array<int>)
    ensures digi[..] == DIGI
  {
    var n := LONG_MAX_DIGITS;
    digi := new int[n];
    digi[0] := 0;
    var exp := 1;
    for i := 1 to n
      invariant exp == Pow10(i - 1)
      invariant forall k :: 0 <= k < i ==> digi[k] == DigiEntry(k)
    {
      exp := exp * 10;
      digi[i] := exp;
    }
  }

  /** `Long.toString(n)`: a `'-'` for a negative number, then its magnitude. */
  function LongText(n: int): string
  {
    if n < 0 then "-" + Decimal(-n) else Decimal(n)
  }

  /** `appendNumber(sb, num, digits)`, with the builder's contents as a value.
      Any `digits` but `Integer.MIN_VALUE` appends `Padded(num, digits)`, for
      every `num` but `Long.MIN_VALUE`: its negation overflows back to itself,
      so no digit test stops the padding and `sb.append(num)` prints a
      second `'-'`. For `digits == Integer.MIN_VALUE` the post-decrement
      wraps around to `Integer.MAX_VALUE` and the next `DIGI[digits]` is out
      of bounds. */
  method AppendNumber(sb: string, num: int, digits: int) returns (r: Result<string>)
    requires IsLong(num) && IsInt(digits)
    ensures digits != INT_MIN && num != LONG_MIN ==> r == Ok(sb + Padded(num, digits))
    ensures digits != INT_MIN && num == LONG_MIN ==> r == Ok(sb + "-" + Zeros(digits - 1) + LongText(LONG_MIN))
    ensures digits == INT_MIN ==> r == Throws(ArrayIndexOutOfBoundsException)
  {
    var s := sb;
    var n := num;
    if n < 0 {
      s := s + "-";
      NegateLong(n);
      n := WrapLong(n * -1);
    }
    assert n == (if num == LONG_MIN then LONG_MIN else if num < 0 then -num else num);
    var padded, d := PadBeyondTable(s, digits);
    r := PadWithinTable(padded, n, d);
    if digits != INT_MIN && num != LONG_MIN {
      assert |DIGI| == 19 && s == sb + (if num < 0 then "-" else "") && n >= 0;
      assert Padded(num, digits) == (if num < 0 then "-" else "") + Zeros(digits - |Decimal(n)|) + Decimal(n);
      LongDigits(n);
      PaddingSplit(digits, d, |Decimal(n)|);
      Associate(sb, if num < 0 then "-" else "", Zeros(digits - 19), Zeros(d + 1 - |Decimal(n)|), Decimal(n));
    } else if digits != INT_MIN {
      LongMinPadding(sb + "-", digits, d);
    }
  }

  /** The zeros beyond the table and those the second loop appends for a
      number that never stops it: one short of the width. */
  lemma LongMinPadding(prefix: string, digits: int, d: int)
    requires d == (if digits > 19 then 18 else digits - 1)
    ensures prefix + Zeros(digits - 19) + Zeros(d) == prefix + Zeros(digits - 1)
  {
    ZerosAdd(if digits > 19 then digits - 19 else 0, if d > 0 then d else 0);
  }

  /** `appendNumber(sb, Long.MIN_VALUE, 5)` writes `-0000-9223372036854775808`,
      which does not read back as a number at all, where the padded text of
      `Long.MIN_VALUE` reads back as it. */
  lemma LongMinTwoSigns()
    ensures ReadNumber("-" + Zeros(4) + LongText(LONG_MIN)) == None
    ensures ReadNumber(Padded(LONG_MIN, 5)) == Some(LONG_MIN)
  {
    var t := "-" + Zeros(4) + LongText(LONG_MIN);
    assert t[5] == '-' && !IsDigit(t[5]);
    PaddedRoundTrip(LONG_MIN, 5);
  }

  /** The zeros beyond the table and those within it make up the padding
      of a number of `len` digits. */
  lemma PaddingSplit(digits: int, d: int, len: int)
    requires d == (if digits > 19 then 18 else digits - 1) && 1 <= len <= 19
    ensures Zeros(digits - 19) + Zeros(d + 1 - len) == Zeros(digits - len)
  {
    ZerosAdd(if digits > 19 then digits - 19 else 0, if d + 1 > len then d + 1 - len else 0);
  }

  /** A `long` has at most as many digits as `DIGI` has entries. */
  lemma LongDigits(m: nat)
    requires m <= LONG_MAX
    ensures |Decimal(m)| <= |DIGI|
  {
    Pow10Bounds();
    DecimalLength(m, 19);
  }

  lemma Associate(a: string, b: string, c: string, d: string, e: string)
    ensures a + ((b + (c + d)) + e) == (((a + b) + c) + d) + e
  {
  }

  /** `while (digits-- > DIGI.length) sb.append('0')`: the zeros beyond the
      table, and the counter afterwards, wrapped around for
      `Integer.MIN_VALUE`. */
  method PadBeyondTable(sb: string, digits: int) returns (s: string, d: int)
    requires IsInt(digits)
    ensures digits == INT_MIN ==> d == INT_MAX && s == sb
    ensures digits != INT_MIN ==>
      d == (if digits > |DIGI| then |DIGI| - 1 else digits - 1) && s == sb + Zeros(digits - |DIGI|)
  {
    s := sb;
    d := digits;
    assert digits == INT_MIN ==> WrapInt(d - 1) == INT_MAX;
    var more := d > |DIGI|;
    d := WrapInt(d - 1);
    while more
      invariant digits == INT_MIN ==> d == INT_MAX && !more && s == sb
      invariant digits != INT_MIN ==>
        && d < digits && (more <==> d + 1 > |DIGI|) && (d + 1 >= |DIGI| || d + 1 == digits)
        && s == sb + Zeros(digits - (d + 1))
      decreases d
    {
      s := s + "0";
      more := d > |DIGI|;
      d := WrapInt(d - 1);
    }
    if digits != INT_MIN && digits <= |DIGI| {
      assert Zeros(digits - (d + 1)) == [] == Zeros(digits - |DIGI|);
    }
  }

  /** `while (digits > 0) { if (num >= DIGI[digits--]) break; sb.append('0'); }`
      followed by `sb.append(num)`: enough zeros for `n` to fill `d + 1`
      digits, then `n`; a counter beyond the table is out of its bounds. */
  method PadWithinTable(sb: string, n: int, d: int) returns (r: Result<string>)
    requires IsLong(n)
    ensures d >= |DIGI| ==> r == Throws(ArrayIndexOutOfBoundsException)
    ensures d < |DIGI| && n >= 0 ==> r == Ok(sb + Zeros(d + 1 - |Decimal(n)|) + Decimal(n))
    ensures d < |DIGI| && n < 0 ==> r == Ok(sb + Zeros(d) + LongText(n))
  {
    var s := sb;
    var k := d;
    while k > 0
      invariant k <= d && s == sb + Zeros(d - k) && (k == d || (k >= 0 && n < Pow10(k + 1)))
      invariant k < d ==> d < |DIGI|
      decreases k
    {
      if k >= |DIGI| {
        return Throws(ArrayIndexOutOfBoundsException);
      }
      var reached := n >= DIGI[k];
      k := k - 1;
      if reached {
        PaddingCount(d, k + 1, n, true);
        return Ok(s + LongText(n));
      }
      s := s + "0";
    }
    if n >= 0 {
      PaddingCount(d, k, n, false);
    } else {
      assert d - k == (if d > 0 then d else 0);
    }
    return Ok(s + LongText(n));
  }

  /** The zeros the second loop of `appendNumber` appends are the shortfall
      of the digits of `m` against `start + 1`: `stop` is the value of the
      counter at which the loop stops, after a `break` when `broke` holds. */
  lemma PaddingCount(start: int, stop: int, m: nat, broke: bool)
    requires m <= LONG_MAX && start < |DIGI|
    requires stop <= start && (stop == start || (stop >= 0 && m < Pow10(stop + 1)))
    requires broke ==> stop >= 1 && m >= Pow10(stop)
    requires !broke ==> stop <= 0
    ensures Zeros(start - stop) == Zeros(start + 1 - |Decimal(m)|)
  {
    Pow10Bounds();
    DecimalLength(m, 19);
    if broke {
      DecimalLength(m, stop);
      if stop < start {
        DecimalLength(m, stop + 1);
      }
    } else if stop < start {
      DecimalLength(m, 1);
    }
  }

  // ---------------------------------------------------------------------
  // Durations
  // ---------------------------------------------------------------------

  /** `java.util.concurrent.TimeUnit`, in declaration order. */
  datatype TimeUnit = Nanoseconds | Microseconds | Milliseconds | Seconds | Minutes | Hours | Days

  function Ordinal(u: TimeUnit): nat
  {
    match u
    case Nanoseconds => 0
    case Microseconds => 1
    case Milliseconds => 2
    case Seconds => 3
    case Minutes => 4
    case Hours => 5
    case Days => 6
  }

  /** `a.compareTo(b) < 0`. */
  predicate Finer(a: TimeUnit, b: TimeUnit)
  {
    Ordinal(a) < Ordinal(b)
  }

  /** A duration broken into days, hours, minutes, seconds, milliseconds
      and the nanoseconds below a millisecond. */
  datatype Parts = Parts(days: int, hours: int, minutes: int, seconds: int, millis: int, nanos: int)

  /** The nanoseconds the parts add up to. */
  function Recombined(p: Parts): int
  {
    ((((p.days * 24 + p.hours) * 60 + p.minutes) * 60 + p.seconds) * 1000 + p.millis) * 1_000_000 + p.nanos
  }

  /** The chain of `%` and `/=` at the head of `durationInNanos`: the parts
      add up to the duration, each within its unit and on the duration's
      side of zero. */
  function Split(d: int): (p: Parts)
    ensures Recombined(p) == d
    ensures d >= 0 ==>
      && p.days >= 0 && 0 <= p.hours < 24 && 0 <= p.minutes < 60 && 0 <= p.seconds < 60
      && 0 <= p.millis < 1000 && 0 <= p.nanos < 1_000_000
    ensures d < 0 ==>
      && p.days <= 0 && -24 < p.hours <= 0 && -60 < p.minutes <= 0 && -60 < p.seconds <= 0
      && -1000 < p.millis <= 0 && -1_000_000 < p.nanos <= 0
  {
    var d1 := JavaDiv(d, 1_000_000);
    var d2 := JavaDiv(d1, 1000);
    var d3 := JavaDiv(d2, 60);
    var d4 := JavaDiv(d3, 60);
    JavaDivRem(d, 1_000_000);
    JavaDivRem(d1, 1000);
    JavaDivRem(d2, 60);
    JavaDivRem(d3, 60);
    JavaDivRem(d4, 24);
    Parts(JavaDiv(d4, 24), JavaRem(d4, 24), JavaRem(d3, 60), JavaRem(d2, 60), JavaRem(d1, 1000), JavaRem(d, 1_000_000))
  }

  /** What precedes the minutes: `days:hh:` from one day on, `hh:` from one
      hour on, nothing below an hour. */
  function Lead(p: Parts): string
  {
    if p.days > 0 then Decimal(p.days) + ":" + Padded(p.hours, 2) + ":"
    else if p.hours > 0 then Padded(p.hours, 2) + ":"
    else ""
  }

  /** The hours are shown only for a duration of at least one hour. */
  lemma LeadShownFromAnHour(d: int)
    requires d >= 0
    ensures Lead(Split(d)) != [] <==> d >= 3_600_000_000_000
  {
    var p := Split(d);
    var below := ((p.minutes * 60 + p.seconds) * 1000 + p.millis) * 1_000_000 + p.nanos;
    assert 0 <= below < 3_600_000_000_000;
    assert d == (p.days * 24 + p.hours) * 3_600_000_000_000 + below;
  }

  /** The text `durationAsString(d, finest)` builds. */
  function DurationText(d: int, finest: TimeUnit): string
  {
    Layout(Split(d), finest)
  }

  /** The layout of the parts: `[[days:]hh:]mm`, then `:ss` below minutes,
      `:mmm` below seconds, and `.nnnnnn` for nanoseconds when there are any. */
  function Layout(p: Parts, finest: TimeUnit): string
  {
    var withMinutes := Lead(p) + Padded(p.minutes, 2);
    var withSeconds := if Finer(finest, Minutes) then withMinutes + ":" + Padded(p.seconds, 2) else withMinutes;
    var withMillis := if Finer(finest, Seconds) then withSeconds + ":" + Padded(p.millis, 3) else withSeconds;
    if Finer(finest, Seconds) && p.nanos > 0 && finest == Nanoseconds then withMillis + "." + Padded(p.nanos, 6)
    else withMillis
  }

  /** `appendNumber` with a width it always accepts. */
  method AppendPadded(sb: string, num: int, digits: nat) returns (r: string)
    requires IsLong(num) && num != LONG_MIN && digits <= INT_MAX
    ensures r == sb + Padded(num, digits)
  {
    var appended := AppendNumber(sb, num, digits);
    r := appended.value;
  }

  /** The chain of `%` and `/=` at the head of `durationAsString`. */
  method SplitDuration(durationInNanos: int) returns (p: Parts)
    ensures p == Split(durationInNanos)
  {
    var d := durationInNanos;
    var nanos := JavaRem(d, 1_000_000);
    d := JavaDiv(d, 1_000_000);
    var millis := JavaRem(d, 1000);
    d := JavaDiv(d, 1000);
    var seconds := JavaRem(d, 60);
    d := JavaDiv(d, 60);
    var minutes := JavaRem(d, 60);
    d := JavaDiv(d, 60);
    var hours := JavaRem(d, 24);
    d := JavaDiv(d, 24);
    var days := d;
    p := Parts(days, hours, minutes, seconds, millis, nanos);
  }

  /** `durationAsString(durationInNanos, finest)`. */
  method DurationAsString(durationInNanos: int, finest: TimeUnit) returns (s: string)
    requires IsLong(durationInNanos)
    ensures s == DurationText(durationInNanos, finest)
  {
    var p := SplitDuration(durationInNanos);
    var days, hours, minutes, seconds, millis, nanos := p.days, p.hours, p.minutes, p.seconds, p.millis, p.nanos;

    var sb := "";
    if days > 0 {
      sb := sb + Decimal(days) + ":";
      assert sb == Decimal(days) + ":";
      sb := AppendPadded(sb, hours, 2);
      sb := sb + ":";
    } else if hours > 0 {
      sb := AppendPadded(sb, hours, 2);
      assert sb == Padded(hours, 2);
      sb := sb + ":";
    }
    assert sb == Lead(p);
    sb := AppendPadded(sb, minutes, 2);
    if Finer(finest, Minutes) {
      sb := AppendPadded(sb + ":", seconds, 2);
      if Finer(finest, Seconds) {
        sb := AppendPadded(sb + ":", millis, 3);
        if nanos > 0 && finest == Nanoseconds {
          sb := AppendPadded(sb + ".", nanos, 6);
        }
      }
    }
    s := sb;
  }

  /** `d` cut down to the finest field shown for `finest`: below a
      millisecond only nanoseconds are shown, down to a millisecond for
      microseconds and milliseconds, down to a minute for minutes and
      coarser units. */
  function Truncated(d: int, finest: TimeUnit): int
  {
    if finest == Nanoseconds then d
    else if Finer(finest, Seconds) then d - d % 1_000_000
    else if finest == Seconds then d - d % 1_000_000_000
    else d - d % 60_000_000_000
  }

  /** The text before and the text after the last `c` in `s`, if `s` holds one. */
  function LastSplit(s: string, c: char): Option<(string, string)>
    decreases |s|
  {
    if s == [] then None
    else if s[|s| - 1] == c then Some((s[..|s| - 1], ""))
    else match LastSplit(s[..|s| - 1], c)
      case None => None
      case Some(split) => Some((split.0, split.1 + [s[|s| - 1]]))
  }

  /** The text before the last `c`, and the number after it. */
  function TakeLast(s: string, c: char): Option<(string, int)>
  {
    match LastSplit(s, c)
    case None => None
    case Some(split) =>
      match ReadNumber(split.1)
      case None => None
      case Some(v) => Some((split.0, v))
  }

  /** Reads `[[days:]hh:]mm` back into days, hours and minutes. */
  function ReadLead(s: string): Option<(int, int, int)>
  {
    if ':' !in s then
      match ReadNumber(s)
      case None => None
      case Some(minutes) => Some((0, 0, minutes))
    else
      match TakeLast(s, ':')
      case None => None
      case Some(rest) =>
        if ':' !in rest.0 then
          match ReadNumber(rest.0)
          case None => None
          case Some(hours) => Some((0, hours, rest.1))
        else
          match TakeLast(rest.0, ':')
          case None => None
          case Some(front) =>
            match ReadNumber(front.0)
            case None => None
            case Some(days) => Some((days, front.1, rest.1))
  }

  /** Reads a text in the layout `durationAsString` uses for `finest` back
      into nanoseconds; fields not shown count as zero. */
  function ReadDuration(s: string, finest: TimeUnit): Option<int>
  {
    var nanosPart := if finest == Nanoseconds && '.' in s then TakeLast(s, '.') else Some((s, 0));
    if nanosPart.None? then None else
    var millisPart := if Finer(finest, Seconds) then TakeLast(nanosPart.value.0, ':') else Some((nanosPart.value.0, 0));
    if millisPart.None? then None else
    var secondsPart := if Finer(finest, Minutes) then TakeLast(millisPart.value.0, ':') else Some((millisPart.value.0, 0));
    if secondsPart.None? then None else
    var lead := ReadLead(secondsPart.value.0);
    if lead.None? then None else
    Some(Recombined(Parts(lead.value.0, lead.value.1, lead.value.2, secondsPart.value.1, millisPart.value.1, nanosPart.value.1)))
  }

  /** Reading the text of a non-negative duration back gives the duration
      cut down to the finest field shown. */
  lemma DurationRoundTrip(d: int, finest: TimeUnit)
    requires d >= 0
    ensures ReadDuration(DurationText(d, finest), finest) == Some(Truncated(d, finest))
  {
    ShownFieldsRoundTrip(d, finest);
    ShownValue(d, finest);
  }

  /** The parts of `d` the text shows for `finest`, zero for those it leaves out. */
  function Shown(d: int, finest: TimeUnit): Parts
  {
    var p := Split(d);
    var showsNanos := Finer(finest, Seconds) && p.nanos > 0 && finest == Nanoseconds;
    Parts(p.days, p.hours, p.minutes, if Finer(finest, Minutes) then p.seconds else 0,
          if Finer(finest, Seconds) then p.millis else 0, if showsNanos then p.nanos else 0)
  }

  /** Reading the text of a non-negative duration back gives the fields
      shown for `finest`. */
  lemma ShownFieldsRoundTrip(d: int, finest: TimeUnit)
    requires d >= 0
    ensures ReadDuration(DurationText(d, finest), finest) == Some(Recombined(Shown(d, finest)))
  {
    var p := Split(d);
    var showsNanos := Finer(finest, Seconds) && p.nanos > 0 && finest == Nanoseconds;
    var withMinutes := Lead(p) + Padded(p.minutes, 2);
    var secondsText, millisText, nanosText := Padded(p.seconds, 2), Padded(p.millis, 3), Padded(p.nanos, 6);
    var withSeconds := if Finer(finest, Minutes) then withMinutes + ":" + secondsText else withMinutes;
    var withMillis := if Finer(finest, Seconds) then withSeconds + ":" + millisText else withSeconds;
    var text := if showsNanos then withMillis + "." + nanosText else withMillis;
    assert DurationText(d, finest) == text;
    ReadLeadOf(p);
    LeadSeparators(p);
    NoSeparators(p.minutes, 2);
    NoDotIn(Lead(p), Padded(p.minutes, 2));
    FieldText(p.seconds, 2);
    FieldText(p.millis, 3);
    FieldText(p.nanos, 6);
    ReadFields(withMinutes, secondsText, millisText, nanosText, finest, showsNanos, (p.days, p.hours, p.minutes), p.seconds, p.millis, p.nanos);
  }

  /** A padded non-negative field holds no separator and reads back. */
  lemma FieldText(num: int, digits: int)
    requires num >= 0
    ensures ':' !in Padded(num, digits) && '.' !in Padded(num, digits)
    ensures ReadNumber(Padded(num, digits)) == Some(num)
  {
    NoSeparators(num, digits);
    PaddedRoundTrip(num, digits);
  }

  /** The fields shown for `finest` add up to the duration cut down to the
      finest of them. */
  lemma ShownValue(d: int, finest: TimeUnit)
    requires d >= 0
    ensures Recombined(Shown(d, finest)) == Truncated(d, finest)
  {
    TruncatedValues(d);
  }

  /** Reading back the fields after the minutes, whatever their text, when
      each reads back as a number and holds no separator. */
  lemma ReadFields(withMinutes: string, secondsText: string, millisText: string, nanosText: string,
                   finest: TimeUnit, showsNanos: bool, lead: (int, int, int), seconds: int, millis: int, nanos: int)
    requires ReadLead(withMinutes) == Some(lead) && '.' !in withMinutes
    requires ':' !in secondsText && '.' !in secondsText && ReadNumber(secondsText) == Some(seconds)
    requires ':' !in millisText && '.' !in millisText && ReadNumber(millisText) == Some(millis)
    requires '.' !in nanosText && ReadNumber(nanosText) == Some(nanos)
    requires showsNanos ==> Finer(finest, Seconds) && finest == Nanoseconds
    ensures
      var withSeconds := if Finer(finest, Minutes) then withMinutes + ":" + secondsText else withMinutes;
      var withMillis := if Finer(finest, Seconds) then withSeconds + ":" + millisText else withSeconds;
      var text := if showsNanos then withMillis + "." + nanosText else withMillis;
      ReadDuration(text, finest) ==
        Some(Recombined(Parts(lead.0, lead.1, lead.2, if Finer(finest, Minutes) then seconds else 0,
                              if Finer(finest, Seconds) then millis else 0, if showsNanos then nanos else 0)))
  {
    var withSeconds := if Finer(finest, Minutes) then withMinutes + ":" + secondsText else withMinutes;
    var withMillis := if Finer(finest, Seconds) then withSeconds + ":" + millisText else withSeconds;
    if Finer(finest, Minutes) {
      LastSplitOf(withMinutes, ':', secondsText);
      NoDotIn(withMinutes + ":", secondsText);
    }
    if Finer(finest, Seconds) {
      LastSplitOf(withSeconds, ':', millisText);
      NoDotIn(withSeconds + ":", millisText);
    }
    if showsNanos {
      var text := withMillis + "." + nanosText;
      LastSplitOf(withMillis, '.', nanosText);
      assert text[|withMillis|] == '.';
    }
  }

  /** Neither `':'` nor `'.'` occurs in a padded non-negative number. */
  lemma NoSeparators(num: int, digits: int)
    requires num >= 0
    ensures ':' !in Padded(num, digits) && '.' !in Padded(num, digits)
  {
    AllDigits(digits - |Decimal(num)|, num);
    var t := Padded(num, digits);
    assert t == "" + Zeros(digits - |Decimal(num)|) + Decimal(num);
    forall i | 0 <= i < |t|
      ensures IsDigit(t[i])
    {
    }
  }

  lemma NoDotIn(a: string, b: string)
    requires '.' !in a && '.' !in b
    ensures '.' !in a + b
  {
    assert forall i :: 0 <= i < |a + b| ==> (a + b)[i] == (if i < |a| then a[i] else b[i - |a|]);
  }

  /** A `'.'` never occurs before the minutes. */
  lemma LeadSeparators(p: Parts)
    requires p.days >= 0 && p.hours >= 0
    ensures '.' !in Lead(p)
  {
    NoSeparators(p.hours, 2);
    AllDigits(0, p.days);
    assert '.' !in Decimal(p.days);
  }

  /** The days, hours and minutes read back from what precedes the seconds. */
  lemma ReadLeadOf(p: Parts)
    requires p.days >= 0 && p.hours >= 0 && p.minutes >= 0
    ensures ReadLead(Lead(p) + Padded(p.minutes, 2)) == Some((p.days, p.hours, p.minutes))
  {
    var minutes := Padded(p.minutes, 2);
    FieldText(p.minutes, 2);
    if p.days > 0 {
      FieldText(p.hours, 2);
      DecimalText(p.days);
      ReadLeadDays(Decimal(p.days), Padded(p.hours, 2), minutes, p.days, p.hours, p.minutes);
    } else if p.hours > 0 {
      FieldText(p.hours, 2);
      ReadLeadHours(Padded(p.hours, 2), minutes, p.hours, p.minutes);
    } else {
      assert Lead(p) + minutes == minutes;
    }
  }

  lemma ReadLeadDays(daysText: string, hoursText: string, minutesText: string, days: int, hours: int, minutes: int)
    requires ':' !in daysText && ReadNumber(daysText) == Some(days)
    requires ':' !in hoursText && ReadNumber(hoursText) == Some(hours)
    requires ':' !in minutesText && ReadNumber(minutesText) == Some(minutes)
    ensures ReadLead(daysText + ":" + hoursText + ":" + minutesText) == Some((days, hours, minutes))
  {
    var front := daysText + ":" + hoursText;
    var s := front + ":" + minutesText;
    LastSplitOf(front, ':', minutesText);
    assert TakeLast(s, ':') == Some((front, minutes));
    LastSplitOf(daysText, ':', hoursText);
    assert TakeLast(front, ':') == Some((daysText, hours));
    assert front[|daysText|] == ':';
    assert s[|daysText|] == ':';
  }

  lemma ReadLeadHours(hoursText: string, minutesText: string, hours: int, minutes: int)
    requires ':' !in hoursText && ReadNumber(hoursText) == Some(hours)
    requires ':' !in minutesText && ReadNumber(minutesText) == Some(minutes)
    ensures ReadLead(hoursText + ":" + minutesText) == Some((0, hours, minutes))
  {
    var s := hoursText + ":" + minutesText;
    LastSplitOf(hoursText, ':', minutesText);
    assert s[|hoursText|] == ':';
  }

  /** `Long.toString` of a positive number reads back. */
  lemma DecimalText(n: nat)
    requires n > 0
    ensures ':' !in Decimal(n) && ReadNumber(Decimal(n)) == Some(n)
  {
    AllDigits(0, n);
    PaddedRoundTrip(n, 0);
    assert Padded(n, 0) == "" + [] + Decimal(n) == Decimal(n);
  }

  /** Splitting at the last `c`, when none follows it. */
  lemma {:induction false} LastSplitOf(a: string, c: char, b: string)
    requires c !in b
    ensures LastSplit(a + [c] + b, c) == Some((a, b))
    decreases |b|
  {
    var s := a + [c] + b;
    if b == [] {
      assert s[..|s| - 1] == a;
    } else {
      var front := b[..|b| - 1];
      LastSplitOf(a, c, front);
      assert s[..|s| - 1] == a + [c] + front;
      assert front + [b[|b| - 1]] == b;
    }
  }

  /** Cutting a non-negative duration down to a millisecond, a second or a
      minute drops exactly the parts below it. */
  lemma TruncatedValues(d: int)
    requires d >= 0
    ensures var p := Split(d);
      && d - d % 1_000_000 == Recombined(p.(nanos := 0))
      && d - d % 1_000_000_000 == Recombined(p.(millis := 0, nanos := 0))
      && d - d % 60_000_000_000 == Recombined(p.(seconds := 0, millis := 0, nanos := 0))
  {
    var p := Split(d);
    var minutes := (p.days * 24 + p.hours) * 60 + p.minutes;
    var seconds := minutes * 60 + p.seconds;
    var millis := seconds * 1000 + p.millis;
    DivModUnique(d, 1_000_000, millis, p.nanos);
    DivModUnique(d, 1_000_000_000, seconds, p.millis * 1_000_000 + p.nanos);
    DivModUnique(d, 60_000_000_000, minutes, (p.seconds * 1000 + p.millis) * 1_000_000 + p.nanos);
  }

  // ---------------------------------------------------------------------
  // Assignability with primitives
  // ---------------------------------------------------------------------

  /** `WRAPPERS[i]` for the first `i` with `PRIMITIVES[i] == t`, if any. */
  function WrapperOf(w: World, t: ClassId): (r: Option<ClassId>)
    ensures r.None? <==> t !in w.primitives
    ensures r.Some? ==> w.ValidClass(r.value)
  {
    match FirstIndex(w.primitives, t)
    case None => None
    case Some(k) => Some(w.wrappers[k])
  }

  /** What `isAssignableFrom(superType, subType)` answers: the plain relation
      of `java.lang.Class`, or, for a primitive `superType`, the plain
      relation of its wrapper. */
  predicate AssignableWithPrimitives(w: World, superType: ClassId, subType: ClassId)
    requires w.ValidClass(superType) && w.ValidClass(subType)
  {
    || AssignableFrom(w, superType, subType)
    || (IsPrimitive(w, superType) && WrapperOf(w, superType).Some? && AssignableFrom(w, WrapperOf(w, superType).value, subType))
  }

  /** `type.isInstance(value)` of `java.lang.Class`: `value` is not null
      and its class is assignable to `type`. */
  predicate PlainInstance(w: World, t: ClassId, value: Ref)
    requires w.ValidClass(t) && (value.Some? ==> value.value in w.heap)
  {
    value.Some? && AssignableFrom(w, t, ClassOf(w, value.value))
  }

  /** `isAssignableFrom(superType, subType)`. */
  method IsAssignableFrom(w: World, superType: ClassId, subType: ClassId) returns (b: bool)
    requires w.ValidClass(superType) && w.ValidClass(subType)
    ensures b == AssignableWithPrimitives(w, superType, subType)
  {
    if AssignableFrom(w, superType, subType) {
      return true;
    }
    if !IsPrimitive(w, superType) {
      return false;
    }
    for i := 0 to |w.primitives|
      invariant superType !in w.primitives[..i]
    {
      if superType == w.primitives[i] {
        assert FirstIndex(w.primitives, superType) == Some(i) by { FirstIndexAt(w.primitives, superType, i); }
        return AssignableFrom(w, w.wrappers[i], subType);
      }
    }
    assert w.primitives[..|w.primitives|] == w.primitives;
    return false;
  }

  /** `isInstance(type, value)`. */
  method IsInstance(w: World, t: ClassId, value: Ref) returns (b: bool)
    requires w.ValidClass(t) && (value.Some? ==> value.value in w.heap)
    ensures b == (PlainInstance(w, t, value)
      || (IsPrimitive(w, t) && WrapperOf(w, t).Some? && PlainInstance(w, WrapperOf(w, t).value, value)))
  {
    if PlainInstance(w, t, value) {
      return true;
    }
    if !IsPrimitive(w, t) {
      return false;
    }
    for i := 0 to |w.primitives|
      invariant t !in w.primitives[..i]
    {
      if t == w.primitives[i] {
        assert FirstIndex(w.primitives, t) == Some(i) by { FirstIndexAt(w.primitives, t, i); }
        return PlainInstance(w, w.wrappers[i], value);
      }
    }
    assert w.primitives[..|w.primitives|] == w.primitives;
    return false;
  }

  /** A position holding `x` with no `x` before it is the first index of `x`. */
  lemma FirstIndexAt<T>(s: seq<T>, x: T, i: nat)
    requires i < |s| && s[i] == x && x !in s[..i]
    ensures FirstIndex(s, x) == Some(i)
  {
  }

  /** `isInstance(type, value)` holds exactly when `value` is not null and
      `isAssignableFrom(type, value.getClass())` holds. */
  lemma InstanceIsAssignable(w: World, t: ClassId, value: Ref)
    requires w.ValidClass(t) && (value.Some? ==> value.value in w.heap)
    ensures (PlainInstance(w, t, value)
      || (IsPrimitive(w, t) && WrapperOf(w, t).Some? && PlainInstance(w, WrapperOf(w, t).value, value)))
      <==> value.Some? && AssignableWithPrimitives(w, t, ClassOf(w, value.value))
  {
  }

  /** A primitive type accepts its own wrapper, and otherwise exactly what
      the wrapper accepts; a reference type accepts what `Class` says. */
  lemma PrimitiveTakesItsWrapper(w: World, k: nat, subType: ClassId)
    requires k < |w.primitives| && w.primitives[k] !in w.primitives[..k]
    requires IsPrimitive(w, w.primitives[k]) && w.ValidClass(subType)
    ensures AssignableWithPrimitives(w, w.primitives[k], w.wrappers[k])
    ensures AssignableWithPrimitives(w, w.primitives[k], subType)
      <==> subType == w.primitives[k] || AssignableFrom(w, w.wrappers[k], subType)
  {
    FirstIndexAt(w.primitives, w.primitives[k], k);
    AssignableFromReflexive(w, w.wrappers[k]);
  }

  /** Only primitive types gain anything: for a reference type the answer is
      the plain one, and a primitive subtype is accepted only by itself or by
      a primitive type whose wrapper accepts it. */
  lemma ReferenceTypesUnchanged(w: World, superType: ClassId, subType: ClassId)
    requires w.ValidClass(superType) && w.ValidClass(subType)
    ensures !IsPrimitive(w, superType) ==>
      (AssignableWithPrimitives(w, superType, subType) <==> AssignableFrom(w, superType, subType))
    ensures IsPrimitive(w, subType) && !IsPrimitive(w, superType) ==> !AssignableWithPrimitives(w, superType, subType) || superType == subType
  {
  }

  // ---------------------------------------------------------------------
  // Field iteration
  // ---------------------------------------------------------------------

  /** The fields declared above `c`: those of its superclass chain. */
  function InheritedFields(w: World, c: ClassId): (fs: seq<Field>)
    requires w.ValidClass(c)
  {
    assert w.ValidClassInfo(c);
    if w.classes[c].superclass.Some? then ChainFields(w, w.classes[c].superclass.value) else []
  }

  /** `FieldIterator`: walks the declared fields of a class, then those of
      each superclass, skipping classes that declare none. */
  class FieldIterator {
    const w: World
    var currentClass: Option<ClassId>
    var currentFields: seq<Field>
    var fieldIndex: int

    /** While a class is current, it is a class of the table, its declared
        fields are at hand and the index points at one of them. */
    ghost predicate Valid()
      reads this
    {
      currentClass.Some? ==>
        && w.ValidClass(currentClass.value)
        && currentFields == w.classes[currentClass.value].fields
        && 0 <= fieldIndex < |currentFields|
    }

    /** The fields still to come. */
    ghost function Remaining(): seq<Field>
      reads this
      requires Valid()
    {
      if currentClass.None? then [] else currentFields[fieldIndex..] + InheritedFields(w, currentClass.value)
    }

    /** `new FieldIterator(clazz)`: all fields of the chain are to come. */
    constructor (w: World, clazz: ClassId)
      requires w.ValidClass(clazz)
      ensures Valid() && Remaining() == ChainFields(w, clazz)
    {
      this.w := w;
      currentClass := Some(clazz);
      currentFields := w.classes[clazz].fields;
      fieldIndex := 0;
      new;
      assert currentFields[0..] == currentFields;
      PrepareNextField();
    }

    /** `prepareNextField()`: climbs past exhausted classes to the next
        field, or to the end of the chain. */
    method PrepareNextField()
      modifies this
      requires currentClass.Some? && w.ValidClass(currentClass.value)
      requires currentFields == w.classes[currentClass.value].fields && 0 <= fieldIndex <= |currentFields|
      ensures Valid()
      ensures Remaining() == old(currentFields[fieldIndex..] + InheritedFields(w, currentClass.value))
    {
      ghost var rest := currentFields[fieldIndex..] + InheritedFields(w, currentClass.value);
      while fieldIndex >= |currentFields|
        invariant currentClass.Some? && w.ValidClass(currentClass.value)
        invariant currentFields == w.classes[currentClass.value].fields && 0 <= fieldIndex <= |currentFields|
        invariant rest == currentFields[fieldIndex..] + InheritedFields(w, currentClass.value)
        decreases currentClass.value
      {
        assert w.ValidClassInfo(currentClass.value);
        assert currentFields[fieldIndex..] == [];
        currentClass := w.classes[currentClass.value].superclass;
        if currentClass.None? {
          return;
        }
        fieldIndex := 0;
        currentFields := w.classes[currentClass.value].fields;
        assert currentFields[0..] == currentFields;
      }
    }

    /** `next()`: the next field, or `NoSuchElementException` at the end. */
    method Next() returns (r: Result<Field>)
      modifies this
      requires Valid()
      ensures Valid()
      ensures old(Remaining()) == [] ==> r == Throws(NoSuchElementException) && Remaining() == []
      ensures old(Remaining()) != [] ==> r == Ok(old(Remaining())[0]) && Remaining() == old(Remaining())[1..]
    {
      if currentClass.None? {
        return Throws(NoSuchElementException);
      }
      var f := currentFields[fieldIndex];
      ghost var tail := currentFields[fieldIndex + 1..] + InheritedFields(w, currentClass.value);
      assert currentFields[fieldIndex..] == [f] + currentFields[fieldIndex + 1..];
      Associate3([f], currentFields[fieldIndex + 1..], InheritedFields(w, currentClass.value));
      assert Remaining() == [f] + tail;
      fieldIndex := fieldIndex + 1;
      PrepareNextField();
      assert Remaining() == tail;
      return Ok(f);
    }

    /** `hasNext()`. */
    function HasNext(): (b: bool)
      reads this
      requires Valid()
      ensures b <==> Remaining() != []
    {
      currentClass.Some?
    }
  }

  // ---------------------------------------------------------------------
  // Injection
  // ---------------------------------------------------------------------

  /** The private `Matcher` enum: when a field of type `fieldType` takes a
      value of type `expected`. */
  datatype Matcher = Exact | Assignable | AssignableWithPrimitivesMatcher

  /** `matcher.matches(expected, fieldType)`. */
  predicate MatchSpec(w: World, m: Matcher, expected: ClassId, fieldType: ClassId)
  {
    && w.ValidClass(expected) && w.ValidClass(fieldType)
    && match m
       case Exact => expected == fieldType
       case Assignable => AssignableFrom(w, fieldType, expected)
       case AssignableWithPrimitivesMatcher => AssignableWithPrimitives(w, fieldType, expected)
  }

  method Matches(w: World, m: Matcher, expected: ClassId, fieldType: ClassId) returns (b: bool)
    requires w.ValidClass(expected) && w.ValidClass(fieldType)
    ensures b == MatchSpec(w, m, expected, fieldType)
  {
    match m
    case Exact => b := expected == fieldType;
    case Assignable => b := AssignableFrom(w, fieldType, expected);
    case AssignableWithPrimitivesMatcher => b := IsAssignableFrom(w, fieldType, expected);
  }

  /** Each matcher accepts whatever the stricter ones accept. */
  lemma MatchersWiden(w: World, expected: ClassId, fieldType: ClassId)
    ensures MatchSpec(w, Exact, expected, fieldType) ==> MatchSpec(w, Assignable, expected, fieldType)
    ensures MatchSpec(w, Assignable, expected, fieldType) ==> MatchSpec(w, AssignableWithPrimitivesMatcher, expected, fieldType)
  {
    if MatchSpec(w, Exact, expected, fieldType) {
      AssignableFromReflexive(w, fieldType);
    }
  }

  /** The fields of `fields`, in order, whose type the matcher accepts for `expected`. */
  function Matching(w: World, fields: seq<Field>, expected: ClassId, m: Matcher): seq<Field>
  {
    if fields == [] then []
    else
      var last := fields[|fields| - 1];
      Matching(w, fields[..|fields| - 1], expected, m) + (if MatchSpec(w, m, expected, last.fieldType) then [last] else [])
  }

  lemma MatchingSnoc(w: World, fields: seq<Field>, f: Field, expected: ClassId, m: Matcher)
    ensures Matching(w, fields + [f], expected, m)
      == Matching(w, fields, expected, m) + (if MatchSpec(w, m, expected, f.fieldType) then [f] else [])
  {
    assert (fields + [f])[..|fields|] == fields;
  }

  /** A field is a match exactly when it is one of `fields` and its type is accepted. */
  lemma {:induction false} MatchingMember(w: World, fields: seq<Field>, expected: ClassId, m: Matcher, f: Field)
    ensures f in Matching(w, fields, expected, m) <==> f in fields && MatchSpec(w, m, expected, f.fieldType)
  {
    if fields != [] {
      var front := fields[..|fields| - 1];
      MatchingMember(w, front, expected, m, f);
      assert fields == front + [fields[|fields| - 1]];
    }
  }

  /** The matches of a concatenation are those of each part. */
  lemma {:induction false} MatchingConcat(w: World, s: seq<Field>, t: seq<Field>, expected: ClassId, m: Matcher)
    ensures Matching(w, s + t, expected, m) == Matching(w, s, expected, m) + Matching(w, t, expected, m)
    decreases |t|
  {
    if t == [] {
      assert s + t == s;
    } else {
      var u := t[..|t| - 1];
      var x := t[|t| - 1];
      assert t == u + [x];
      assert s + t == (s + u) + [x];
      MatchingConcat(w, s, u, expected, m);
      MatchingSnoc(w, s + u, x, expected, m);
      MatchingSnoc(w, u, x, expected, m);
    }
  }

  /** The private `inject(target, fieldType, value, matcher)`, with the
      field write made visible: `written` is the field set to `value`.
      No match answers `false`; one match is written and answers `true`; at
      a second match the first has already been written, and the call
      throws. A null target throws at `target.getClass()`. */
  method Inject(w: World, target: Ref, fieldType: ClassId, m: Matcher) returns (r: Result<bool>, written: Option<Field>)
    requires w.ValidClass(fieldType) && (target.Some? ==> target.value in w.heap)
    ensures target.None? ==> r == Throws(NullPointerException) && written.None?
    ensures target.Some? ==> InjectOutcome(Matching(w, ChainFields(w, ClassOf(w, target.value)), fieldType, m), r, written)
  {
    if target.None? {
      return Throws(NullPointerException), None;
    }
    r, written := InjectFields(w, ClassOf(w, target.value), fieldType, m);
  }

  /** The outcome `inject` promises for the matching fields `matches`. */
  predicate InjectOutcome(matches: seq<Field>, r: Result<bool>, written: Option<Field>)
  {
    && (|matches| == 0 ==> r == Ok(false) && written.None?)
    && (|matches| == 1 ==> r == Ok(true) && written == Some(matches[0]))
    && (|matches| >= 2 ==> r == Throws(IllegalStateException) && written == Some(matches[0]))
  }

  /** `iterator.next()` while fields remain: the field at position `n` of
      the chain `all`, after which the ones past it remain. */
  method TakeNext(i: FieldIterator, ghost all: seq<Field>, ghost n: nat) returns (f: Field)
    requires i.Valid() && n < |all| && i.Remaining() == all[n..]
    modifies i
    ensures i.Valid() && f == all[n] && i.Remaining() == all[n + 1..]
  {
    Advance(all, n);
    var next := i.Next();
    f := next.value;
  }

  /** The loop of `inject` over the fields of the target's class `cls`. */
  method InjectFields(w: World, cls: ClassId, fieldType: ClassId, m: Matcher) returns (r: Result<bool>, written: Option<Field>)
    requires w.ValidClass(fieldType) && w.ValidClass(cls)
    ensures InjectOutcome(Matching(w, ChainFields(w, cls), fieldType, m), r, written)
  {
    ghost var all := ChainFields(w, cls);
    ghost var n := 0;
    ghost var matched: seq<Field> := [];
    var injectedField: Option<string> := None;
    written := None;
    var i := new FieldIterator(w, cls);
    while i.HasNext()
      invariant i.Valid() && n <= |all| && i.Remaining() == all[n..]
      invariant matched == Matching(w, all[..n], fieldType, m) && |matched| <= 1
      invariant injectedField.Some? <==> |matched| == 1
      invariant written == (if injectedField.Some? then Some(matched[0]) else None)
      decreases |all| - n
    {
      var f := TakeNext(i, all, n);
      MatchingPrefix(w, all, n, fieldType, m);
      var fits := Matches(w, m, fieldType, f.fieldType);
      if fits {
        if injectedField.Some? {
          SecondMatch(w, all, n, fieldType, m);
          return Throws(IllegalStateException), written;
        }
        injectedField := Some(f.name);
        written := Some(f);
      }
      matched := matched + if fits then [f] else [];
      n := n + 1;
    }
    assert n == |all| && all[..n] == all;
    r := Ok(injectedField.Some?);
  }

  /** `inject(target, value)`: the field type is the value's own class,
      primitives accepting their wrappers; a null value throws at
      `value.getClass()` before the target is looked at. */
  method InjectValue(w: World, target: Ref, value: Ref) returns (r: Result<bool>, written: Option<Field>)
    requires (target.Some? ==> target.value in w.heap) && (value.Some? ==> value.value in w.heap)
    ensures value.None? || target.None? ==> r == Throws(NullPointerException) && written.None?
    ensures value.Some? && target.Some? ==>
      InjectOutcome(Matching(w, ChainFields(w, ClassOf(w, target.value)), ClassOf(w, value.value), AssignableWithPrimitivesMatcher), r, written)
  {
    if value.None? {
      return Throws(NullPointerException), None;
    }
    r, written := Inject(w, target, ClassOf(w, value.value), AssignableWithPrimitivesMatcher);
  }

  /** The matcher of `inject(target, fieldType, value, exactMatch)`;
      `inject(target, fieldType, value)` is the case `exactMatch == false`. */
  function MatcherFor(exactMatch: bool): Matcher
  {
    if exactMatch then Exact else Assignable
  }

  /** `injectRequired(target, fieldType, value, exactMatch)`: as `inject`,
      but finding no field is an error too. */
  method InjectRequired(w: World, target: Ref, fieldType: ClassId, exactMatch: bool) returns (r: Result<()>, written: Option<Field>)
    requires w.ValidClass(fieldType) && (target.Some? ==> target.value in w.heap)
    ensures target.None? ==> r == Throws(NullPointerException) && written.None?
    ensures target.Some? ==>
      var matches := Matching(w, ChainFields(w, ClassOf(w, target.value)), fieldType, MatcherFor(exactMatch));
      && (|matches| != 1 ==> r == Throws(IllegalStateException))
      && (|matches| == 1 ==> r == Ok(()))
      && written == (if matches == [] then None else Some(matches[0]))
  {
    var injected;
    injected, written := Inject(w, target, fieldType, MatcherFor(exactMatch));
    match injected
    case Throws(e) => r := Throws(e);
    case Ok(found) => r := if found then Ok(()) else Throws(IllegalStateException);
  }

  /** One more field of `all` adds it to the matches exactly when it is accepted. */
  lemma MatchingPrefix(w: World, all: seq<Field>, n: nat, expected: ClassId, m: Matcher)
    requires n < |all|
    ensures Matching(w, all[..n + 1], expected, m)
      == Matching(w, all[..n], expected, m) + (if MatchSpec(w, m, expected, all[n].fieldType) then [all[n]] else [])
  {
    assert all[..n + 1] == all[..n] + [all[n]];
    MatchingSnoc(w, all[..n], all[n], expected, m);
  }

  /** A second match at position `n`: the whole sequence has at least two
      matches, and the first of them is the one before `n`. */
  lemma SecondMatch(w: World, all: seq<Field>, n: nat, expected: ClassId, m: Matcher)
    requires n < |all| && MatchSpec(w, m, expected, all[n].fieldType)
    requires |Matching(w, all[..n], expected, m)| == 1
    ensures var whole := Matching(w, all, expected, m);
      |whole| >= 2 && whole[0] == Matching(w, all[..n], expected, m)[0]
  {
    var matched := Matching(w, all[..n], expected, m);
    assert all[..n + 1] == all[..n] + [all[n]];
    MatchingSnoc(w, all[..n], all[n], expected, m);
    var before := Matching(w, all[..n + 1], expected, m);
    assert before == matched + [all[n]];
    MatchingConcat(w, all[..n + 1], all[n + 1..], expected, m);
    assert all[..n + 1] + all[n + 1..] == all;
  }
}
