/**
 * The text form `%Y-%m-%dT%H:%M:%SZ` of a timestamp, as the gap filler reads it
 * with `strptime` and writes it with `strftime`. Only the canonical fixed-width
 * form of 20 characters is accepted; anything else is a parse failure, which is
 * Python's ValueError.
 */
module TimestampText {
  import opened Wrappers
  import opened Calendar

  const TextLength := 20

  predicate IsDigit(c: char) {
    '0' <= c <= '9'
  }

  function DigitValue(c: char): int {
    c as int - '0' as int
  }

  function DigitChar(d: int): char
    requires 0 <= d <= 9
  {
    ('0' as int + d) as char
  }

  predicate AllDigits(s: string) {
    forall i :: 0 <= i < |s| ==> IsDigit(s[i])
  }

  /** The value of a non-empty run of decimal digits. */
  function Number(s: string): int
    decreases |s|
  {
    if |s| == 0 then 0 else Number(s[..|s| - 1]) * 10 + DigitValue(s[|s| - 1])
  }

  /** The last `width` decimal digits of `n`, zero padded on the left. */
  function Padded(n: int, width: nat): (s: string)
    ensures |s| == width
    decreases width
  {
    if width == 0 then [] else Padded(n / 10, width - 1) + [DigitChar(n % 10)]
  }

  /** A number below `10^width` survives being written and read back. */
  lemma {:induction false} NumberOfPadded(n: nat, width: nat)
    requires n < Pow10(width)
    ensures AllDigits(Padded(n, width))
    ensures Number(Padded(n, width)) == n
    decreases width
  {
    if width > 0 {
      NumberOfPadded(n / 10, width - 1);
      var s := Padded(n, width);
      assert s[..|s| - 1] == Padded(n / 10, width - 1);
    }
  }

  /** A run of digits survives being read and written back at its own width. */
  lemma {:induction false} PaddedOfNumber(s: string)
    requires AllDigits(s)
    ensures 0 <= Number(s) < Pow10(|s|)
    ensures Padded(Number(s), |s|) == s
  {
    if |s| > 0 {
      var init := s[..|s| - 1];
      PaddedOfNumber(init);
      var n := Number(s);
      assert n / 10 == Number(init) && n % 10 == DigitValue(s[|s| - 1]);
      assert s == init + [s[|s| - 1]];
    }
  }

  function Pow10(k: nat): (p: int)
    ensures p >= 1
  {
    if k == 0 then 1 else 10 * Pow10(k - 1)
  }

  /** The positions of the separators in `YYYY-MM-DDTHH:MM:SSZ`. */
  predicate Shaped(s: string) {
    |s| == TextLength &&
    s[4] == '-' && s[7] == '-' && s[10] == 'T' && s[13] == ':' && s[16] == ':' && s[19] == 'Z' &&
    AllDigits(s[0..4]) && AllDigits(s[5..7]) && AllDigits(s[8..10]) &&
    AllDigits(s[11..13]) && AllDigits(s[14..16]) && AllDigits(s[17..19])
  }

  function Fields(s: string): DateTime
    requires |s| == TextLength
  {
    DateTime(Number(s[0..4]), Number(s[5..7]), Number(s[8..10]),
             Number(s[11..13]), Number(s[14..16]), Number(s[17..19]))
  }

  /** `datetime.strptime(s, '%Y-%m-%dT%H:%M:%SZ')` on canonical input; `None` is the ValueError. */
  function ParseTimestamp(s: string): (r: Option<DateTime>)
    ensures r.Some? ==> Valid(r.value)
  {
    if Shaped(s) && Valid(Fields(s)) then Some(Fields(s)) else None
  }

  /** The date part `%Y-%m-%d`. */
  function FormatDate(t: DateTime): (s: string)
    ensures |s| == 10
  {
    Padded(t.year, 4) + "-" + Padded(t.month, 2) + "-" + Padded(t.day, 2)
  }

  /** The time part `%H:%M:%S`. */
  function FormatTime(t: DateTime): (s: string)
    ensures |s| == 8
  {
    Padded(t.hour, 2) + ":" + Padded(t.minute, 2) + ":" + Padded(t.second, 2)
  }

  /** `t.strftime('%Y-%m-%dT%H:%M:%SZ')`. */
  function FormatTimestamp(t: DateTime): (s: string)
    ensures |s| == TextLength
  {
    FormatDate(t) + "T" + FormatTime(t) + "Z"
  }

  lemma DateFields(t: DateTime)
    ensures var d := FormatDate(t);
      d[0..4] == Padded(t.year, 4) && d[4] == '-' && d[5..7] == Padded(t.month, 2) &&
      d[7] == '-' && d[8..10] == Padded(t.day, 2)
  {
  }

  lemma TimeFields(t: DateTime)
    ensures var d := FormatTime(t);
      d[0..2] == Padded(t.hour, 2) && d[2] == ':' && d[3..5] == Padded(t.minute, 2) &&
      d[5] == ':' && d[6..8] == Padded(t.second, 2)
  {
  }

  /** Where each field sits in the formatted text. */
  lemma FormatFields(t: DateTime)
    ensures var s := FormatTimestamp(t);
      s[0..4] == Padded(t.year, 4) && s[5..7] == Padded(t.month, 2) && s[8..10] == Padded(t.day, 2) &&
      s[11..13] == Padded(t.hour, 2) && s[14..16] == Padded(t.minute, 2) && s[17..19] == Padded(t.second, 2) &&
      s[4] == '-' && s[7] == '-' && s[10] == 'T' && s[13] == ':' && s[16] == ':' && s[19] == 'Z'
  {
    var s, d, tm := FormatTimestamp(t), FormatDate(t), FormatTime(t);
    DateFields(t);
    TimeFields(t);
    assert s[0..10] == d && s[11..19] == tm;
    assert s[0..4] == d[0..4] && s[5..7] == d[5..7] && s[8..10] == d[8..10];
    assert s[11..13] == tm[0..2] && s[14..16] == tm[3..5] && s[17..19] == tm[6..8];
  }

  /** Formatting a valid instant and parsing the text gives the instant back. */
  lemma ParseFormat(t: DateTime)
    requires Valid(t)
    ensures ParseTimestamp(FormatTimestamp(t)) == Some(t)
  {
    FormatFields(t);
    NumberOfPadded(t.year, 4);
    NumberOfPadded(t.month, 2);
    NumberOfPadded(t.day, 2);
    NumberOfPadded(t.hour, 2);
    NumberOfPadded(t.minute, 2);
    NumberOfPadded(t.second, 2);
    assert Shaped(FormatTimestamp(t));
    assert Fields(FormatTimestamp(t)) == t;
  }

  /** A text of the timestamp's length is its date part, 'T', its time part and 'Z'. */
  lemma Pieces(s: string)
    requires |s| == TextLength
    ensures s == s[0..10] + [s[10]] + s[11..19] + [s[19]]
    ensures s[0..10] == s[0..4] + [s[4]] + s[5..7] + [s[7]] + s[8..10]
    ensures s[11..19] == s[11..13] + [s[13]] + s[14..16] + [s[16]] + s[17..19]
  {
    assert s[0..10] == s[0..4] + [s[4]] + s[5..7] + [s[7]] + s[8..10];
    assert s[11..19] == s[11..13] + [s[13]] + s[14..16] + [s[16]] + s[17..19];
  }

  /** Every text that parses is already in canonical form: formatting gives it back unchanged. */
  lemma FormatParse(s: string)
    requires ParseTimestamp(s).Some?
    ensures FormatTimestamp(ParseTimestamp(s).value) == s
  {
    var t := ParseTimestamp(s).value;
    Pieces(s);
    assert FormatDate(t) == s[0..10] by {
      PaddedOfNumber(s[0..4]);
      PaddedOfNumber(s[5..7]);
      PaddedOfNumber(s[8..10]);
      assert "-" == [s[4]] && "-" == [s[7]];
    }
    assert FormatTime(t) == s[11..19] by {
      PaddedOfNumber(s[11..13]);
      PaddedOfNumber(s[14..16]);
      PaddedOfNumber(s[17..19]);
      assert ":" == [s[13]] && ":" == [s[16]];
    }
    assert "T" == [s[10]] && "Z" == [s[19]];
  }
}
