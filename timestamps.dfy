/**
 * timestampToDate: a TiddlyWiki timestamp "YYYYMMDDhhmmss[fff]" read at fixed positions
 * with String.prototype.substr and parseInt(_, 10), and handed to Date.UTC.
 * The model stops at the seven arguments of Date.UTC.
 */
module Timestamps {
  import opened Wrappers

  /** The seven arguments passed to Date.UTC; the month is already 0-based. */
  datatype DateParts = DateParts(year: int, month: int, day: int, hour: int, minute: int, second: int, millisecond: int)

  /** A Date: invalid when one argument of Date.UTC was NaN. */
  datatype Date = InvalidDate | Utc(parts: DateParts)

  /** String.prototype.substr(start, len) for non-negative arguments: clipped to the string. */
  function Substr(s: string, start: nat, len: nat): (r: string)
    ensures |r| <= len
    ensures start + len <= |s| ==> r == s[start..start + len]
    ensures len > 0 ==> (r == [] <==> |s| <= start)
    ensures AllDigits(s) ==> AllDigits(r)
  {
    var lo := if start < |s| then start else |s|;
    var hi := if start + len < |s| then start + len else |s|;
    s[lo..hi]
  }

  predicate IsDigit(c: char) {
    '0' <= c <= '9'
  }

  function DigitValue(c: char): int {
    c as int - '0' as int
  }

  predicate AllDigits(s: string) {
    forall i :: 0 <= i < |s| ==> IsDigit(s[i])
  }

  /** StrWhiteSpaceChar: the white space and line terminators parseInt skips at the front. */
  predicate IsStrWhiteSpace(c: char) {
    // TAB, LF, VT, FF, CR
    || ('\U{0009}' <= c <= '\U{000D}')
    // the space separators (category Zs), and ZWNBSP
    || c == ' ' || c == '\U{00A0}' || c == '\U{1680}' || ('\U{2000}' <= c <= '\U{200A}')
    || c == '\U{202F}' || c == '\U{205F}' || c == '\U{3000}' || c == '\U{FEFF}'
    // LINE SEPARATOR, PARAGRAPH SEPARATOR
    || c == '\U{2028}' || c == '\U{2029}'
  }

  /** The decimal number a string of digits denotes (most significant digit first). */
  function DecimalValue(ds: string): int {
    if ds == [] then 0 else DecimalValue(ds[..|ds| - 1]) * 10 + DigitValue(ds[|ds| - 1])
  }

  /** The longest prefix of s made of digits. */
  function DigitPrefix(s: string): string {
    if s == [] || !IsDigit(s[0]) then [] else [s[0]] + DigitPrefix(s[1..])
  }

  /** s without its leading StrWhiteSpaceChars. */
  function TrimStart(s: string): string {
    if s != [] && IsStrWhiteSpace(s[0]) then TrimStart(s[1..]) else s
  }

  /**
   * parseInt(s, 10): skip leading white space, take an optional sign, read the digits
   * that follow; None (NaN) when there are none.
   */
  function ParseInt(s: string): Option<int> {
    var t := TrimStart(s);
    var negative := t != [] && t[0] == '-';
    var u := if t != [] && (t[0] == '-' || t[0] == '+') then t[1..] else t;
    var z := DigitPrefix(u);
    if z == [] then None
    else
      var magnitude := DecimalValue(z);
      Some(if negative then -magnitude else magnitude)
  }

  /** The `|| "0"` fallback: an empty substring reads as "0". */
  function OrZero(s: string): (r: string)
    ensures AllDigits(s) ==> AllDigits(r)
  {
    if s == [] then "0" else s
  }

  /** Date.UTC on the seven parsed arguments: invalid as soon as one is NaN. */
  function DateUtc(year: Option<int>, month: Option<int>, day: Option<int>, hour: Option<int>,
                   minute: Option<int>, second: Option<int>, millisecond: Option<int>): Date
  {
    if year.Some? && month.Some? && day.Some? && hour.Some? && minute.Some? && second.Some? && millisecond.Some?
    then Utc(DateParts(year.value, month.value, day.value, hour.value, minute.value, second.value, millisecond.value))
    else InvalidDate
  }

  /** parseInt on a field; `- 1` on a parsed month keeps NaN as NaN. */
  function Field(s: string, start: nat, len: nat): Option<int> {
    ParseInt(Substr(s, start, len))
  }

  function Decrement(n: Option<int>): Option<int> {
    if n.Some? then Some(n.value - 1) else None
  }

  /** tiddlyweb.timestampToDate. */
  function TimestampToDate(s: string): Date {
    DateUtc(Field(s, 0, 4), Decrement(Field(s, 4, 2)), Field(s, 6, 2), Field(s, 8, 2), Field(s, 10, 2),
            ParseInt(OrZero(Substr(s, 12, 2))), ParseInt(OrZero(Substr(s, 14, 3))))
  }

  /** DigitPrefix(s) is the longest prefix of s made of digits. */
  lemma {:induction false} DigitPrefixSpec(s: string)
    ensures AllDigits(DigitPrefix(s)) && DigitPrefix(s) <= s
    ensures |DigitPrefix(s)| < |s| ==> !IsDigit(s[|DigitPrefix(s)|])
  {
    if s != [] && IsDigit(s[0]) {
      DigitPrefixSpec(s[1..]);
    }
  }

  /** TrimStart drops a run of white space from the front, and stops at the first other character. */
  lemma {:induction false} TrimStartSpec(s: string)
    ensures |TrimStart(s)| <= |s| && TrimStart(s) == s[|s| - |TrimStart(s)|..]
    ensures forall i :: 0 <= i < |s| - |TrimStart(s)| ==> IsStrWhiteSpace(s[i])
    ensures TrimStart(s) == [] || !IsStrWhiteSpace(TrimStart(s)[0])
  {
    if s != [] && IsStrWhiteSpace(s[0]) {
      TrimStartSpec(s[1..]);
      forall i | 0 <= i < |s| - |TrimStart(s)| ensures IsStrWhiteSpace(s[i]) {
        if i > 0 {
          assert s[i] == s[1..][i - 1];
        }
      }
    }
  }

  lemma {:induction false} DigitPrefixOfDigits(s: string)
    requires AllDigits(s)
    ensures DigitPrefix(s) == s
  {
    if s != [] {
      DigitPrefixOfDigits(s[1..]);
    }
  }

  lemma TrimStartAtDigit(s: string)
    requires s != [] && IsDigit(s[0])
    ensures TrimStart(s) == s
  {
  }

  /** parseInt reads a non-empty string of digits as its decimal value. */
  lemma ParseDigits(s: string)
    requires s != [] && AllDigits(s)
    ensures ParseInt(s) == Some(DecimalValue(s))
  {
    TrimStartAtDigit(s);
    DigitPrefixOfDigits(s);
  }

  /** parseInt stops at the first character that is not a digit. */
  lemma ParseStopsAtNonDigit(d: string, rest: string)
    requires d != [] && AllDigits(d)
    requires rest != [] && !IsDigit(rest[0])
    ensures ParseInt(d + rest) == Some(DecimalValue(d))
  {
    var s := d + rest;
    TrimStartAtDigit(s);
    assert DigitPrefix(s) == d by {
      DigitPrefixSpec(s);
      var p := DigitPrefix(s);
      assert p == s[..|p|];
      assert d == s[..|d|];
    }
  }

  /** A field that lies (at least partly) inside a string of digits reads as its decimal value. */
  lemma DigitField(s: string, start: nat, len: nat)
    requires AllDigits(s) && start < |s| && len > 0
    ensures Field(s, start, len) == Some(DecimalValue(Substr(s, start, len)))
    ensures ParseInt(OrZero(Substr(s, start, len))) == Some(DecimalValue(Substr(s, start, len)))
  {
    ParseDigits(Substr(s, start, len));
  }

  /** A field that lies past the end reads as NaN, or as 0 through the fallback. */
  lemma MissingField(s: string, start: nat, len: nat)
    requires |s| <= start
    ensures Field(s, start, len) == None
    ensures ParseInt(OrZero(Substr(s, start, len))) == Some(0)
  {
    assert Substr(s, start, len) == [];
    ParseDigits("0");
  }

  /**
   * On a string of digits, the timestamp decodes exactly when the minute field is
   * reached (at least 11 characters), and then each component is the decimal value
   * of its fixed-position field (an absent second or millisecond field reading as 0).
   */
  lemma DigitsTimestamp(s: string)
    requires AllDigits(s)
    ensures TimestampToDate(s).Utc? <==> |s| >= 11
    ensures |s| >= 11 ==> TimestampToDate(s) == Utc(DateParts(
      DecimalValue(Substr(s, 0, 4)), DecimalValue(Substr(s, 4, 2)) - 1, DecimalValue(Substr(s, 6, 2)),
      DecimalValue(Substr(s, 8, 2)), DecimalValue(Substr(s, 10, 2)),
      DecimalValue(OrZero(Substr(s, 12, 2))), DecimalValue(OrZero(Substr(s, 14, 3)))))
  {
    if |s| >= 11 {
      var year, month, day := DecimalValue(Substr(s, 0, 4)), DecimalValue(Substr(s, 4, 2)), DecimalValue(Substr(s, 6, 2));
      var hour, minute := DecimalValue(Substr(s, 8, 2)), DecimalValue(Substr(s, 10, 2));
      assert Field(s, 0, 4) == Some(year) by { DigitField(s, 0, 4); }
      assert Field(s, 4, 2) == Some(month) by { DigitField(s, 4, 2); }
      assert Field(s, 6, 2) == Some(day) by { DigitField(s, 6, 2); }
      assert Field(s, 8, 2) == Some(hour) by { DigitField(s, 8, 2); }
      assert Field(s, 10, 2) == Some(minute) by { DigitField(s, 10, 2); }
      var second := DefaultedField(s, 12, 2);
      var millisecond := DefaultedField(s, 14, 3);
      AssembleDate(s, year, month, day, hour, minute, second, millisecond);
    } else {
      MissingField(s, 10, 2);
    }
  }

  /** timestampToDate once every field has been read. */
  lemma AssembleDate(s: string, year: int, month: int, day: int, hour: int, minute: int, second: int, millisecond: int)
    requires Field(s, 0, 4) == Some(year) && Field(s, 4, 2) == Some(month) && Field(s, 6, 2) == Some(day)
    requires Field(s, 8, 2) == Some(hour) && Field(s, 10, 2) == Some(minute)
    requires ParseInt(OrZero(Substr(s, 12, 2))) == Some(second)
    requires ParseInt(OrZero(Substr(s, 14, 3))) == Some(millisecond)
    ensures TimestampToDate(s) == Utc(DateParts(year, month - 1, day, hour, minute, second, millisecond))
  {
  }

  /** A defaulted field of a string of digits reads as its decimal value, "0" when absent. */
  lemma DefaultedField(s: string, start: nat, len: nat) returns (v: int)
    requires AllDigits(s) && len > 0
    ensures ParseInt(OrZero(Substr(s, start, len))) == Some(v)
    ensures v == DecimalValue(OrZero(Substr(s, start, len)))
  {
    if start < |s| {
      DigitField(s, start, len);
    } else {
      MissingField(s, start, len);
    }
    v := DecimalValue(OrZero(Substr(s, start, len)));
  }

  /** The full form: seventeen digits give the components at positions 0-4, 4-6 (minus one), 6-8, ..., 14-17. */
  lemma FullTimestamp(s: string)
    requires |s| == 17 && AllDigits(s)
    ensures TimestampToDate(s) == Utc(DateParts(
      DecimalValue(s[0..4]), DecimalValue(s[4..6]) - 1, DecimalValue(s[6..8]),
      DecimalValue(s[8..10]), DecimalValue(s[10..12]), DecimalValue(s[12..14]), DecimalValue(s[14..17])))
  {
    DigitsTimestamp(s);
  }

  /** Without seconds and milliseconds, both read as 0. */
  lemma MinuteTimestamp(s: string)
    requires |s| == 12 && AllDigits(s)
    ensures TimestampToDate(s) == Utc(DateParts(
      DecimalValue(s[0..4]), DecimalValue(s[4..6]) - 1, DecimalValue(s[6..8]),
      DecimalValue(s[8..10]), DecimalValue(s[10..12]), 0, 0))
  {
    DigitsTimestamp(s);
    assert DecimalValue("0") == 0;
  }

  /** A non-empty second field that parseInt cannot read is NaN: `|| "0"` only replaces an empty one. */
  lemma UnreadableSecond(s: string)
    requires Substr(s, 12, 2) != [] && ParseInt(Substr(s, 12, 2)) == None
    ensures TimestampToDate(s) == InvalidDate
  {
  }

  /** A non-empty millisecond field that parseInt cannot read is NaN as well. */
  lemma UnreadableMillisecond(s: string)
    requires Substr(s, 14, 3) != [] && ParseInt(Substr(s, 14, 3)) == None
    ensures TimestampToDate(s) == InvalidDate
  {
  }

  lemma UnreadableExampleSlices(s: string)
    requires s == "202106151430ab"
    ensures Substr(s, 0, 4) == "2021" + [] && Substr(s, 4, 2) == "06" + [] && Substr(s, 6, 2) == "15" + []
    ensures Substr(s, 8, 2) == "14" + [] && Substr(s, 10, 2) == "30" + [] && Substr(s, 12, 2) == "ab"
  {
  }

  /** "202106151430ab": every leading field reads, but the seconds "ab" do not. */
  lemma UnreadableSecondExample(s: string)
    requires s == "202106151430ab"
    ensures Field(s, 0, 4) == Some(2021) && Field(s, 4, 2) == Some(6) && Field(s, 6, 2) == Some(15)
    ensures Field(s, 8, 2) == Some(14) && Field(s, 10, 2) == Some(30)
    ensures TimestampToDate(s) == InvalidDate
  {
    UnreadableExampleSlices(s);
    ExampleDecimals();
    FieldOf(s, 0, 4, "2021", []);
    FieldOf(s, 4, 2, "06", []);
    FieldOf(s, 6, 2, "15", []);
    FieldOf(s, 8, 2, "14", []);
    FieldOf(s, 10, 2, "30", []);
    assert ParseInt("ab") == None;
    UnreadableSecond(s);
  }

  /** A field that starts with a character parseInt cannot read makes the date invalid. */
  lemma UnreadableYear(s: string)
    requires s != [] && !IsDigit(s[0]) && !IsStrWhiteSpace(s[0]) && s[0] != '-' && s[0] != '+'
    ensures TimestampToDate(s) == InvalidDate
  {
    assert Substr(s, 0, 4)[0] == s[0];
  }

  lemma DecimalOfTwo(a: char, b: char)
    requires IsDigit(a) && IsDigit(b)
    ensures DecimalValue([a, b]) == DigitValue(a) * 10 + DigitValue(b)
  {
    assert [a][..0] == [];
    assert AllDigits([a]);
    assert DecimalValue([a]) == DigitValue(a);
    assert [a, b][..1] == [a];
  }

  lemma DecimalOfThree(a: char, b: char, c: char)
    requires IsDigit(a) && IsDigit(b) && IsDigit(c)
    ensures DecimalValue([a, b, c]) == (DigitValue(a) * 10 + DigitValue(b)) * 10 + DigitValue(c)
  {
    assert [a, b, c][..2] == [a, b];
    DecimalOfTwo(a, b);
  }

  lemma DecimalOfFour(a: char, b: char, c: char, d: char)
    requires IsDigit(a) && IsDigit(b) && IsDigit(c) && IsDigit(d)
    ensures DecimalValue([a, b, c, d]) == ((DigitValue(a) * 10 + DigitValue(b)) * 10 + DigitValue(c)) * 10 + DigitValue(d)
  {
    assert [a, b, c, d][..3] == [a, b, c];
    DecimalOfThree(a, b, c);
  }

  /** The decimal values of the fields of the two examples below. */
  lemma ExampleDecimals()
    ensures DecimalValue("2021") == 2021 && DecimalValue("06") == 6 && DecimalValue("15") == 15
    ensures DecimalValue("14") == 14 && DecimalValue("30") == 30 && DecimalValue("22") == 22
    ensures DecimalValue("500") == 500
  {
    DecimalOfFour('2', '0', '2', '1');
    DecimalOfTwo('0', '6');
    DecimalOfTwo('1', '5');
    DecimalOfTwo('1', '4');
    DecimalOfTwo('3', '0');
    DecimalOfTwo('2', '2');
    DecimalOfThree('5', '0', '0');
  }

  lemma FullExampleSlices(s: string)
    requires s == "20210615143022500"
    ensures |s| == 17 && AllDigits(s)
    ensures s[0..4] == "2021" && s[4..6] == "06" && s[6..8] == "15" && s[8..10] == "14"
    ensures s[10..12] == "30" && s[12..14] == "22" && s[14..17] == "500"
  {
  }

  lemma MinuteExampleSlices(s: string)
    requires s == "202106151430"
    ensures |s| == 12 && AllDigits(s)
    ensures s[0..4] == "2021" && s[4..6] == "06" && s[6..8] == "15" && s[8..10] == "14" && s[10..12] == "30"
  {
  }

  /** The example of a full timestamp: 2021-06-15 14:30:22.500, with June as month 5. */
  lemma FullTimestampExample()
    ensures TimestampToDate("20210615143022500") == Utc(DateParts(2021, 5, 15, 14, 30, 22, 500))
  {
    var s := "20210615143022500";
    FullExampleSlices(s);
    ExampleDecimals();
    FullTimestamp(s);
  }

  /** The example of a timestamp that stops at the minutes: 2021-06-15 14:30:00.000. */
  lemma MinuteTimestampExample()
    ensures TimestampToDate("202106151430") == Utc(DateParts(2021, 5, 15, 14, 30, 0, 0))
  {
    var s := "202106151430";
    MinuteExampleSlices(s);
    ExampleDecimals();
    MinuteTimestamp(s);
  }

  /** A field whose substring is digits followed by a non-digit (or nothing) reads as those digits. */
  lemma FieldOf(s: string, start: nat, len: nat, d: string, rest: string)
    requires Substr(s, start, len) == d + rest
    requires d != [] && AllDigits(d) && (rest == [] || !IsDigit(rest[0]))
    ensures Field(s, start, len) == Some(DecimalValue(d))
  {
    if rest == [] {
      assert d + rest == d;
      ParseDigits(d);
    } else {
      ParseStopsAtNonDigit(d, rest);
    }
  }

  lemma TrailingTextSlices(s: string)
    requires s == "20210615143x"
    ensures Substr(s, 0, 4) == "2021" + [] && Substr(s, 4, 2) == "06" + [] && Substr(s, 6, 2) == "15" + []
    ensures Substr(s, 8, 2) == "14" + [] && Substr(s, 10, 2) == "3" + "x"
    ensures Substr(s, 12, 2) == [] && Substr(s, 14, 3) == []
  {
  }

  /** parseInt reads a field only up to its first non-digit: "3x" is minute 3. */
  lemma TrailingTextExample(s: string)
    requires s == "20210615143x"
    ensures TimestampToDate(s) == Utc(DateParts(2021, 5, 15, 14, 3, 0, 0))
  {
    TrailingTextSlices(s);
    ExampleDecimals();
    assert DecimalValue("3") == 3 by { assert "3"[..0] == []; }
    FieldOf(s, 0, 4, "2021", []);
    FieldOf(s, 4, 2, "06", []);
    FieldOf(s, 6, 2, "15", []);
    FieldOf(s, 8, 2, "14", []);
    FieldOf(s, 10, 2, "3", "x");
    MissingField(s, 12, 2);
    MissingField(s, 14, 3);
    AssembleDate(s, 2021, 6, 15, 14, 3, 0, 0);
  }
}
