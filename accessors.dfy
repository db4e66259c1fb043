/**
 * The two derived attributes of the News model: `excerpt` and
 * `formatted_date`. Each `char` of a text stands for one byte of the PHP
 * string (by convention: the type admits larger characters), so a length
 * here is the byte length `strlen` reports and a cut may fall inside a
 * multibyte character, as `substr` does.
 */
module Accessors {
  import opened Wrappers
  import opened News

  /** How many bytes of `content` an excerpt keeps before the ellipsis. */
  const ExcerptLength: nat := 100

  const Ellipsis: string := "..."

  /** PHP truthiness of a nullable string: not NULL, not `""` and not `"0"`. */
  predicate Truthy(s: Option<string>)
  {
    s.Some? && s.value != "" && s.value != "0"
  }

  /** The `content` branch of the excerpt: at most 100 bytes, then `"..."` if anything was cut. */
  function Truncate(content: string): string
  {
    if |content| > ExcerptLength then content[..ExcerptLength] + Ellipsis else content
  }

  /** The `excerpt` attribute: the description when it is truthy, else the truncated content. */
  function Excerpt(n: NewsItem): string
  {
    if Truthy(n.description) then n.description.value else Truncate(n.content)
  }

  /** A truthy description is the excerpt as it stands, whatever the content. */
  lemma ExcerptOfTruthyDescription(n: NewsItem)
    requires Truthy(n.description)
    ensures Excerpt(n) == n.description.value
  {
  }

  /**
   * Without a truthy description the excerpt comes from the content: short
   * content unchanged, long content cut to its first 100 bytes and followed
   * by `"..."`, 103 bytes in all; either way it starts with a prefix of the
   * content and is never longer than 103 bytes.
   */
  lemma ExcerptOfContent(n: NewsItem)
    requires !Truthy(n.description)
    ensures |n.content| <= ExcerptLength ==> Excerpt(n) == n.content
    ensures |n.content| > ExcerptLength ==>
              |Excerpt(n)| == ExcerptLength + |Ellipsis|
              && Excerpt(n)[..ExcerptLength] == n.content[..ExcerptLength]
              && Excerpt(n)[ExcerptLength..] == Ellipsis
    ensures |Excerpt(n)| <= ExcerptLength + |Ellipsis|
    ensures n.content[..if |n.content| <= ExcerptLength then |n.content| else ExcerptLength] <= Excerpt(n)
  {
    if |n.content| > ExcerptLength {
      var r := n.content[..ExcerptLength] + Ellipsis;
      assert r[..ExcerptLength] == n.content[..ExcerptLength];
      assert r[ExcerptLength..] == Ellipsis;
    }
  }

  // ---------------------------------------------------------------------
  // formatted_date: `published_date->format('Y.m.d')`, or "" without a date

  function DaysInMonth(year: int, month: int): nat
  {
    if month == 2 then
      (if (year % 4 == 0 && year % 100 != 0) || year % 400 == 0 then 29 else 28)
    else if month == 4 || month == 6 || month == 9 || month == 11 then 30
    else 31
  }

  /** A calendar date with a four-digit year, the range this model formats. */
  predicate ValidDate(d: Date)
  {
    && 1000 <= d.year <= 9999
    && 1 <= d.month <= 12
    && 1 <= d.day <= DaysInMonth(d.year, d.month)
  }

  predicate IsDigit(c: char)
  {
    '0' <= c <= '9'
  }

  function DigitChar(v: int): (c: char)
    requires 0 <= v <= 9
    ensures IsDigit(c)
  {
    ('0' as int + v) as char
  }

  function DigitValue(c: char): int
  {
    c as int - '0' as int
  }

  /** A number below 100 as two digits, zero-padded (`m`, `d`). */
  function Pad2(v: int): string
    requires 0 <= v <= 99
  {
    [DigitChar(v / 10), DigitChar(v % 10)]
  }

  /** A four-digit year (`Y`). */
  function Year4(y: int): string
    requires 1000 <= y <= 9999
  {
    [DigitChar(y / 1000), DigitChar(y / 100 % 10), DigitChar(y / 10 % 10), DigitChar(y % 10)]
  }

  /** The `Y.m.d` rendering of a date. */
  function FormatYmd(d: Date): string
    requires ValidDate(d)
  {
    Year4(d.year) + "." + Pad2(d.month) + "." + Pad2(d.day)
  }

  /** The `formatted_date` attribute: the `Y.m.d` rendering, or `""` when there is no date. */
  function FormattedDate(n: NewsItem): string
    requires n.publishedDate.Some? ==> ValidDate(n.publishedDate.value)
  {
    match n.publishedDate
    case None => ""
    case Some(d) => FormatYmd(d)
  }

  /** Reads a `Y.m.d` string back: ten characters, dots at 4 and 7, digits elsewhere. */
  function ParseYmd(s: string): Option<Date>
  {
    if |s| == 10 && s[4] == '.' && s[7] == '.'
       && forall i :: 0 <= i < 10 && i != 4 && i != 7 ==> IsDigit(s[i])
    then
      Some(Date(
        1000 * DigitValue(s[0]) + 100 * DigitValue(s[1]) + 10 * DigitValue(s[2]) + DigitValue(s[3]),
        10 * DigitValue(s[5]) + DigitValue(s[6]),
        10 * DigitValue(s[8]) + DigitValue(s[9])))
    else None
  }

  /** The shape of `formatted_date`: empty without a date; else ten characters, dots at 4 and 7, digits elsewhere. */
  lemma FormattedDateShape(n: NewsItem)
    requires n.publishedDate.Some? ==> ValidDate(n.publishedDate.value)
    ensures n.publishedDate.None? ==> FormattedDate(n) == ""
    ensures n.publishedDate.Some? ==>
              var s := FormattedDate(n);
              |s| == 10 && s[4] == '.' && s[7] == '.'
              && forall i :: 0 <= i < 10 && i != 4 && i != 7 ==> IsDigit(s[i])
  {
  }

  lemma {:induction false} DigitsOfYear(y: int)
    requires 1000 <= y <= 9999
    ensures 1000 * (y / 1000) + 100 * (y / 100 % 10) + 10 * (y / 10 % 10) + y % 10 == y
  {
    var a, b, c, e := y / 1000, y / 100 % 10, y / 10 % 10, y % 10;
    assert y / 100 == 10 * a + b;
    assert y / 10 == 10 * (y / 100) + c;
    assert y == 10 * (y / 10) + e;
  }

  /** Reading the rendering back gives the date: `Y.m.d` loses nothing. */
  lemma FormatParseRoundTrip(d: Date)
    requires ValidDate(d)
    ensures ParseYmd(FormatYmd(d)) == Some(d)
  {
    DigitsOfYear(d.year);
    var s := FormatYmd(d);
    assert s[0] == DigitChar(d.year / 1000) && s[3] == DigitChar(d.year % 10);
    assert s[5] == DigitChar(d.month / 10) && s[9] == DigitChar(d.day % 10);
  }

  lemma DigitRoundTrip(c: char)
    requires IsDigit(c)
    ensures 0 <= DigitValue(c) <= 9 && DigitChar(DigitValue(c)) == c
  {
  }

  lemma {:induction false} YearOfDigits(a: int, b: int, c: int, e: int)
    requires 1 <= a <= 9 && 0 <= b <= 9 && 0 <= c <= 9 && 0 <= e <= 9
    ensures var y := 1000 * a + 100 * b + 10 * c + e;
            1000 <= y <= 9999 && y / 1000 == a && y / 100 % 10 == b && y / 10 % 10 == c && y % 10 == e
  {
    var y := 1000 * a + 100 * b + 10 * c + e;
    assert y == 10 * (100 * a + 10 * b + c) + e;
    assert y / 10 == 100 * a + 10 * b + c;
    assert y / 10 == 10 * (10 * a + b) + c;
    assert y / 100 == 10 * a + b;
    assert y / 100 == 10 * a + b && y / 1000 == a;
  }

  lemma {:induction false} TwoDigits(a: int, b: int)
    requires 0 <= a <= 9 && 0 <= b <= 9
    ensures (10 * a + b) / 10 == a && (10 * a + b) % 10 == b
  {
  }

  /** Every string that reads back as a valid date is that date's rendering. */
  lemma ParseFormatRoundTrip(s: string)
    requires ParseYmd(s).Some? && ValidDate(ParseYmd(s).value)
    ensures FormatYmd(ParseYmd(s).value) == s
  {
    var d := ParseYmd(s).value;
    forall i | 0 <= i < 10 && i != 4 && i != 7 ensures DigitChar(DigitValue(s[i])) == s[i] {
      DigitRoundTrip(s[i]);
    }
    var a := DigitValue(s[0]);
    assert 1 <= a by { DigitRoundTrip(s[1]); DigitRoundTrip(s[2]); DigitRoundTrip(s[3]); }
    YearOfDigits(a, DigitValue(s[1]), DigitValue(s[2]), DigitValue(s[3]));
    TwoDigits(DigitValue(s[5]), DigitValue(s[6]));
    TwoDigits(DigitValue(s[8]), DigitValue(s[9]));
    var t := FormatYmd(d);
    assert t == Year4(d.year) + "." + Pad2(d.month) + "." + Pad2(d.day);
    forall i | 0 <= i < 10 ensures t[i] == s[i] {
    }
  }

  /** Different dates have different renderings. */
  lemma FormatYmdInjective(a: Date, b: Date)
    requires ValidDate(a) && ValidDate(b)
    requires FormatYmd(a) == FormatYmd(b)
    ensures a == b
  {
    FormatParseRoundTrip(a);
    FormatParseRoundTrip(b);
  }

  /** A worked case: 7 March 2024 renders as `"2024.03.07"`. */
  lemma FormattedDateExample(n: NewsItem)
    requires n.publishedDate == Some(Date(2024, 3, 7))
    ensures FormattedDate(n) == "2024.03.07"
  {
  }
}
