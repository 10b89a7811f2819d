/** Tick timestamps and their two textual renderings.

    A tick is an unsigned 64-bit count of nanoseconds since the GPS epoch
    (1980-01-06T00:00:00Z). The program converts it with `time.Duration`,
    which reinterprets the 64 bits as a signed count, adds that to the epoch
    and breaks the instant into UTC calendar fields; that calendar step is the
    Go time library and is a parameter here (`Calendar`). What is modelled is
    the reinterpretation and the two layouts the program formats with:
    "2006-01-02T15:04:05.999999999Z" for the precise form and
    "20060102_150406" for the compact form used in file names. */
module Clock {
  import opened Bytes
  import opened Text

  type Month = m: int | 1 <= m <= 12 witness 1
  type Day = d: int | 1 <= d <= 31 witness 1
  type Hour = h: int | 0 <= h < 24
  type Minute = m: int | 0 <= m < 60
  type Second = s: int | 0 <= s < 60
  type Nanosecond = n: int | 0 <= n < 1_000_000_000

  /** A UTC instant broken into calendar fields. */
  datatype Civil = Civil(year: nat, month: Month, day: Day, hour: Hour,
                         minute: Minute, second: Second, nanosecond: Nanosecond)

  /** The GPS epoch plus a signed nanosecond offset, as UTC calendar fields. */
  type Calendar = int -> Civil

  const TwoTo63: int := 0x8000_0000_0000_0000

  /** `time.Duration(t)`: the u64 tick read as a two's-complement int64. */
  function Duration(t: u64): (d: int)
    ensures -TwoTo63 <= d < TwoTo63
    ensures (d - t) % 0x1_0000_0000_0000_0000 == 0
    ensures t < TwoTo63 ==> d == t
  {
    if t < TwoTo63 then t else t - 0x1_0000_0000_0000_0000
  }

  /** The reinterpretation loses nothing: distinct ticks are distinct offsets. */
  lemma DurationInjective(s: u64, t: u64)
    requires Duration(s) == Duration(t)
    ensures s == t
  {
  }

  /** Drops trailing '0' characters. */
  function TrimTrailingZeros(s: string): (r: string)
    ensures |r| <= |s| && s == r + Zeros(|s| - |r|)
    ensures r != [] ==> r[|r| - 1] != '0'
  {
    if s != [] && s[|s| - 1] == '0' then
      var r := TrimTrailingZeros(s[..|s| - 1]);
      assert s == s[..|s| - 1] + ['0'];
      assert Zeros(|s| - 1 - |r|) + ['0'] == Zeros(|s| - |r|);
      r
    else
      assert s == s + Zeros(0);
      s
  }

  /** ".999999999": the nine-digit fraction with trailing zeros removed,
      and nothing at all (not even the '.') for a whole second. */
  function Fraction(ns: Nanosecond): string
  {
    var t := TrimTrailingZeros(PadDecimal(ns, 9));
    if t == [] then "" else "." + t
  }

  /** The fraction is absent exactly for whole seconds; otherwise it is a '.'
      and at most nine digits without a trailing zero, which padded back with
      zeros to nine digits read as the nanoseconds. */
  lemma FractionShape(ns: Nanosecond)
    ensures Fraction(ns) == "" <==> ns == 0
    ensures var f := Fraction(ns);
      f != "" ==>
        && f[0] == '.' && 2 <= |f| <= 10 && f[|f| - 1] != '0'
        && AllDigits(f[1..] + Zeros(10 - |f|)) && ParseDecimal(f[1..] + Zeros(10 - |f|)) == ns
  {
    var p := PadDecimal(ns, 9);
    DecimalLength(ns, 9);
    assert |p| == 9;
    var t := TrimTrailingZeros(p);
    if t == [] {
      assert p == Zeros(9);
      ZerosParse(9);
    } else {
      var f := "." + t;
      assert f[1..] == t;
      assert t + Zeros(10 - |f|) == p;
      assert ns == 0 ==> p == Zeros(8) + "0" == Zeros(9);
      assert p[|t| - 1] == t[|t| - 1] != '0';
    }
  }

  /** Year, month and day as "2006-01-02". */
  function Date(c: Civil): string
  {
    PadDecimal(c.year, 4) + "-" + PadDecimal(c.month, 2) + "-" + PadDecimal(c.day, 2)
  }

  /** Hours, minutes and seconds as "15:04:05". */
  function TimeOfDay(c: Civil): string
  {
    PadDecimal(c.hour, 2) + ":" + PadDecimal(c.minute, 2) + ":" + PadDecimal(c.second, 2)
  }

  /** Layout "2006-01-02T15:04:05.999999999Z". */
  function Precise(c: Civil): string
  {
    Date(c) + "T" + TimeOfDay(c) + Fraction(c.nanosecond) + "Z"
  }

  /** Layout "20060102_150406": year, month, day, '_', hour, minute and then
      "06", which in Go's layout language is the two-digit year, so the last
      two characters repeat the year and the seconds do not appear. */
  function Compact(c: Civil): string
  {
    CompactDate(c) + "_" + CompactTime(c)
  }

  /** "20060102" */
  function CompactDate(c: Civil): string
  {
    PadDecimal(c.year, 4) + PadDecimal(c.month, 2) + PadDecimal(c.day, 2)
  }

  /** "150406" */
  function CompactTime(c: Civil): string
  {
    PadDecimal(c.hour, 2) + PadDecimal(c.minute, 2) + PadDecimal(c.year % 100, 2)
  }

  /** Three fields with one separator character between each two. */
  lemma Separated(a: string, x: char, b: string, c: string)
    ensures var s := a + [x] + b + [x] + c;
      && s[..|a|] == a && s[|a|] == x
      && s[|a| + 1..|a| + 1 + |b|] == b && s[|a| + 1 + |b|] == x
      && s[|a| + 2 + |b|..] == c
  {
  }

  lemma Widths(c: Civil)
    requires c.year < 10000
    ensures |PadDecimal(c.year, 4)| == 4 && |PadDecimal(c.month, 2)| == 2 && |PadDecimal(c.day, 2)| == 2
    ensures |PadDecimal(c.hour, 2)| == 2 && |PadDecimal(c.minute, 2)| == 2 && |PadDecimal(c.second, 2)| == 2
    ensures |PadDecimal(c.year % 100, 2)| == 2
  {
    DecimalLength(c.year, 4);
    DecimalLength(c.month, 2);
    DecimalLength(c.day, 2);
    DecimalLength(c.hour, 2);
    DecimalLength(c.minute, 2);
    DecimalLength(c.second, 2);
    DecimalLength(c.year % 100, 2);
  }

  /** For a four-digit year the date and time parts have fixed widths and
      every field reads back as the value it renders. */
  lemma DateLayout(c: Civil)
    requires c.year < 10000
    ensures var s := Date(c);
      && |s| == 10 && s[4] == '-' && s[7] == '-'
      && AllDigits(s[..4]) && ParseDecimal(s[..4]) == c.year
      && AllDigits(s[5..7]) && ParseDecimal(s[5..7]) == c.month
      && AllDigits(s[8..]) && ParseDecimal(s[8..]) == c.day
  {
    Widths(c);
    Separated(PadDecimal(c.year, 4), '-', PadDecimal(c.month, 2), PadDecimal(c.day, 2));
  }

  lemma TimeOfDayLayout(c: Civil)
    requires c.year < 10000
    ensures var s := TimeOfDay(c);
      && |s| == 8 && s[2] == ':' && s[5] == ':'
      && AllDigits(s[..2]) && ParseDecimal(s[..2]) == c.hour
      && AllDigits(s[3..5]) && ParseDecimal(s[3..5]) == c.minute
      && AllDigits(s[6..]) && ParseDecimal(s[6..]) == c.second
  {
    Widths(c);
    Separated(PadDecimal(c.hour, 2), ':', PadDecimal(c.minute, 2), PadDecimal(c.second, 2));
  }

  /** The precise form is the date, 'T', the time of day, the fraction and 'Z'. */
  lemma PreciseLayout(c: Civil)
    requires c.year < 10000
    ensures var s := Precise(c);
      && |s| >= 20 && s[..10] == Date(c) && s[10] == 'T' && s[11..19] == TimeOfDay(c)
      && s[19..|s| - 1] == Fraction(c.nanosecond) && s[|s| - 1] == 'Z'
  {
    Widths(c);
    PreciseFields(Date(c), TimeOfDay(c), Fraction(c.nanosecond));
  }

  lemma PreciseFields(d: string, t: string, f: string)
    requires |d| == 10 && |t| == 8
    ensures var s := d + "T" + t + f + "Z";
      && |s| >= 20 && s[..10] == d && s[10] == 'T' && s[11..19] == t
      && s[19..|s| - 1] == f && s[|s| - 1] == 'Z'
  {
  }

  lemma CompactDateLayout(c: Civil)
    requires c.year < 10000
    ensures var s := CompactDate(c);
      && |s| == 8 && AllDigits(s)
      && ParseDecimal(s[..4]) == c.year && ParseDecimal(s[4..6]) == c.month && ParseDecimal(s[6..]) == c.day
      && s[2..4] == PadDecimal(c.year % 100, 2)
  {
    var y := PadDecimal(c.year, 4);
    Widths(c);
    Digits3(y, PadDecimal(c.month, 2), PadDecimal(c.day, 2));
    LastTwoDigits(y);
    SliceOfSlice(CompactDate(c), 0, 4, 2, 4);
  }

  lemma CompactTimeLayout(c: Civil)
    requires c.year < 10000
    ensures var s := CompactTime(c);
      && |s| == 6 && AllDigits(s)
      && ParseDecimal(s[..2]) == c.hour && ParseDecimal(s[2..4]) == c.minute
      && s[4..] == PadDecimal(c.year % 100, 2)
  {
    Widths(c);
    Digits3(PadDecimal(c.hour, 2), PadDecimal(c.minute, 2), PadDecimal(c.year % 100, 2));
  }

  /** Three digit fields laid end to end, with no separator. */
  lemma Digits3(a: string, b: string, c: string)
    requires AllDigits(a) && AllDigits(b) && AllDigits(c)
    ensures var s := a + b + c;
      && AllDigits(s) && s[..|a|] == a && s[|a|..|a| + |b|] == b && s[|a| + |b|..] == c
  {
    var s := a + b + c;
    forall i | 0 <= i < |s| ensures IsDigit(s[i]) {
      if i < |a| { assert s[i] == a[i]; }
      else if i < |a| + |b| { assert s[i] == b[i - |a|]; }
      else { assert s[i] == c[i - |a| - |b|]; }
    }
  }

  /** For a four-digit year the compact form has 15 characters: eight digits
      of date, a '_', and six digits in which the slot where seconds would be
      holds the last two digits of the year, the same two characters as at
      offsets 2 and 3. */
  lemma CompactLayout(c: Civil)
    requires c.year < 10000
    ensures var s := Compact(c);
      && |s| == 15 && s[8] == '_'
      && s[..8] == CompactDate(c) && s[9..] == CompactTime(c)
      && s[13..15] == PadDecimal(c.year % 100, 2) && ParseDecimal(s[13..15]) == c.year % 100
      && s[13..15] == s[2..4]
  {
    CompactDateLayout(c);
    CompactTimeLayout(c);
    var s := Compact(c);
    Joined(CompactDate(c), '_', CompactTime(c));
    SliceOfSlice(s, 9, 15, 4, 6);
    SliceOfSlice(s, 0, 8, 2, 4);
  }

  /** Two fields with one separator character between them. */
  lemma Joined(a: string, x: char, b: string)
    ensures var s := a + [x] + b;
      s[..|a|] == a && s[|a|] == x && s[|a| + 1..] == b
  {
  }

  /** The last two characters of a four-digit rendering are the rendering of
      the value modulo 100. */
  lemma LastTwoDigits(y: string)
    requires |y| == 4 && AllDigits(y)
    ensures y[2..] == PadDecimal(ParseDecimal(y) % 100, 2)
  {
    var n := ParseDecimal(y);
    var hi, lo := y[..2], y[2..];
    assert hi + lo == y;
    ParseDecimalAppend(hi, lo);
    ParseDecimalBound(lo);
    assert n == ParseDecimal(hi) * 100 + ParseDecimal(lo);
    assert n % 100 == ParseDecimal(lo);
    var r := PadDecimal(n % 100, 2);
    DecimalLength(n % 100, 2);
    SameValueSameDigits(lo, r);
  }

  /** Two digit strings of one length with one value are the same string. */
  lemma {:induction false} SameValueSameDigits(a: string, b: string)
    requires |a| == |b| && AllDigits(a) && AllDigits(b) && ParseDecimal(a) == ParseDecimal(b)
    ensures a == b
    decreases |a|
  {
    if a != [] {
      var k := |a| - 1;
      assert ParseDecimal(a) % 10 == a[k] as int - '0' as int;
      assert ParseDecimal(b) % 10 == b[k] as int - '0' as int;
      SameValueSameDigits(a[..k], b[..k]);
      assert a == a[..k] + [a[k]] && b == b[..k] + [b[k]];
    }
  }
}
