/**
 * The text-to-date parser: trimming of the recognised text, the
 * `^(\d{4}).(\d{2}).(\d{2})$` shape check, and `parse_dt`'s field parsing and
 * range check.
 */
module DateParser {
  import opened Wrappers
  import opened Calendar

  /** The Unicode White_Space code points, which Rust's `str::trim` removes. */
  predicate IsWhiteSpace(c: char) {
    var n := c as int;
    || 0x09 <= n <= 0x0D || n == 0x20 || n == 0x85 || n == 0xA0 || n == 0x1680
    || 0x2000 <= n <= 0x200A || n == 0x2028 || n == 0x2029 || n == 0x202F
    || n == 0x205F || n == 0x3000
  }

  predicate AllWhiteSpace(s: string) {
    forall i :: 0 <= i < |s| ==> IsWhiteSpace(s[i])
  }

  /** Drops leading white space: the result is the suffix of `s` after the
      longest all-white-space prefix. */
  function TrimStart(s: string): (r: string)
    ensures |r| <= |s| && r == s[|s| - |r|..]
    ensures AllWhiteSpace(s[..|s| - |r|])
    ensures |r| > 0 ==> !IsWhiteSpace(r[0])
  {
    if |s| > 0 && IsWhiteSpace(s[0]) then TrimStart(s[1..]) else s
  }

  /** Drops trailing white space: the result is the prefix of `s` before the
      longest all-white-space suffix. */
  function TrimEnd(s: string): (r: string)
    ensures |r| <= |s| && r == s[..|r|]
    ensures AllWhiteSpace(s[|r|..])
    ensures |r| > 0 ==> !IsWhiteSpace(r[|r| - 1])
  {
    if |s| > 0 && IsWhiteSpace(s[|s| - 1]) then TrimEnd(s[..|s| - 1]) else s
  }

  /** `r` is the part of `s` starting at `i`, and everything of `s` before
      and after it is white space. */
  predicate IsInfixInWhiteSpace(s: string, r: string, i: int) {
    && 0 <= i && i + |r| <= |s| && r == s[i..i + |r|]
    && AllWhiteSpace(s[..i]) && AllWhiteSpace(s[i + |r|..])
  }

  /** `str::trim`: the infix left after removing white space at both ends.
      It starts where the leading white space ends. */
  function Trim(s: string): (r: string)
    ensures IsInfixInWhiteSpace(s, r, |s| - |TrimStart(s)|)
    ensures |r| > 0 ==> !IsWhiteSpace(r[0]) && !IsWhiteSpace(r[|r| - 1])
  {
    var t := TrimStart(s);
    var r := TrimEnd(t);
    TrimIsInfix(s, t, r);
    r
  }

  /** A prefix of a suffix is an infix, and the parts cut off stay white space. */
  lemma TrimIsInfix(s: string, t: string, r: string)
    requires |t| <= |s| && t == s[|s| - |t|..] && AllWhiteSpace(s[..|s| - |t|])
    requires |r| <= |t| && r == t[..|r|] && AllWhiteSpace(t[|r|..])
    requires |t| > 0 ==> !IsWhiteSpace(t[0])
    requires |r| > 0 ==> !IsWhiteSpace(r[|r| - 1])
    ensures IsInfixInWhiteSpace(s, r, |s| - |t|)
    ensures |r| > 0 ==> !IsWhiteSpace(r[0]) && !IsWhiteSpace(r[|r| - 1])
  {
    var i := |s| - |t|;
    assert s[i + |r|..] == t[|r|..];
  }

  /** Trimming text that has no surrounding white space changes nothing, and
      surrounding white space is dropped. */
  lemma {:induction false} TrimPadded(pre: string, s: string, post: string)
    requires AllWhiteSpace(pre) && AllWhiteSpace(post)
    requires |s| > 0 && !IsWhiteSpace(s[0]) && !IsWhiteSpace(s[|s| - 1])
    ensures Trim(pre + s + post) == s
  {
    assert pre + s + post == pre + (s + post);
    assert (s + post)[0] == s[0];
    TrimStartPadded(pre, s + post);
    TrimEndPadded(s, post);
  }

  lemma {:induction false} TrimStartPadded(pre: string, s: string)
    requires AllWhiteSpace(pre)
    requires |s| > 0 && !IsWhiteSpace(s[0])
    ensures TrimStart(pre + s) == s
  {
    if |pre| > 0 {
      assert (pre + s)[1..] == pre[1..] + s;
      TrimStartPadded(pre[1..], s);
    } else {
      assert pre + s == s;
    }
  }

  lemma {:induction false} TrimEndPadded(s: string, post: string)
    requires AllWhiteSpace(post)
    requires |s| > 0 && !IsWhiteSpace(s[|s| - 1])
    ensures TrimEnd(s + post) == s
  {
    if |post| > 0 {
      assert (s + post)[..|s + post| - 1] == s + post[..|post| - 1];
      TrimEndPadded(s, post[..|post| - 1]);
    } else {
      assert s + post == s;
    }
  }

  predicate IsDigit(c: char) {
    '0' <= c <= '9'
  }

  predicate AllDigits(s: string) {
    forall i :: 0 <= i < |s| ==> IsDigit(s[i])
  }

  /** The three capture groups of a successful match. */
  datatype Groups = Groups(year: string, month: string, day: string)

  /** The date regex `^(\d{4}).(\d{2}).(\d{2})$` on already-trimmed text:
      four digits, any character but a line feed, two digits, any character
      but a line feed, two digits, and nothing else. */
  function MatchDate(s: string): (r: Option<Groups>)
    ensures r.Some? <==>
      && |s| == 10
      && AllDigits(s[..4]) && s[4] != '\n'
      && AllDigits(s[5..7]) && s[7] != '\n'
      && AllDigits(s[8..])
    ensures r.Some? ==>
      && |r.value.year| == 4 && |r.value.month| == 2 && |r.value.day| == 2
      && s == r.value.year + [s[4]] + r.value.month + [s[7]] + r.value.day
  {
    if && |s| == 10
       && AllDigits(s[..4]) && s[4] != '\n'
       && AllDigits(s[5..7]) && s[7] != '\n'
       && AllDigits(s[8..])
    then
      assert s == s[..4] + [s[4]] + s[5..7] + [s[7]] + s[8..];
      Some(Groups(s[..4], s[5..7], s[8..]))
    else
      None
  }

  function DigitValue(c: char): nat
    requires IsDigit(c)
  {
    c as int - '0' as int
  }

  /** The decimal value of a string of ASCII digits. */
  function DigitsValue(s: string): (n: nat)
    requires AllDigits(s)
  {
    if |s| == 0 then 0 else DigitsValue(s[..|s| - 1]) * 10 + DigitValue(s[|s| - 1])
  }

  function Pow10(k: nat): nat {
    if k == 0 then 1 else 10 * Pow10(k - 1)
  }

  /** A string of `k` digits denotes a number below `10^k`. */
  lemma {:induction false} DigitsValueBound(s: string)
    requires AllDigits(s)
    ensures DigitsValue(s) < Pow10(|s|)
  {
    if |s| > 0 {
      DigitsValueBound(s[..|s| - 1]);
    }
  }

  /** What `FromStr` for an unsigned integer type whose largest value is
      `max` accepts: a non-empty string of digits whose value is at most
      `max`. (The optional leading `+` that Rust also accepts cannot occur
      here: the regex groups hold digits only.) */
  function ParseUnsigned(s: string, max: nat): (r: Option<nat>)
  {
    if |s| > 0 && AllDigits(s) && DigitsValue(s) <= max then Some(DigitsValue(s)) else None
  }

  /** A longer digit string is worth at least as much as its prefix. */
  lemma {:induction false} DigitsValuePrefix(s: string, i: nat)
    requires AllDigits(s) && i <= |s|
    ensures DigitsValue(s[..i]) <= DigitsValue(s)
    decreases |s|
  {
    if i < |s| {
      var init := s[..|s| - 1];
      assert init[..i] == s[..i];
      DigitsValuePrefix(init, i);
      assert DigitsValue(s) == DigitsValue(init) * 10 + DigitValue(s[|s| - 1]);
    } else {
      assert s[..i] == s;
    }
  }

  /** `FromStr` for an unsigned integer as it computes, on text without a
      sign (as the regex groups are; the leading `+` Rust also accepts is not
      modelled): an empty string is an error; otherwise the digits are folded
      left to right into an accumulator, and a non-digit, a multiplication by
      ten that leaves the type or an addition that leaves it ends the parse
      with an error. */
  method FromStr(s: string, max: nat) returns (r: Option<nat>)
    ensures r == ParseUnsigned(s, max)
  {
    if |s| == 0 {
      return None;
    }
    var acc := 0;
    for i := 0 to |s|
      invariant AllDigits(s[..i]) && acc == DigitsValue(s[..i]) && acc <= max
    {
      assert s[..i + 1][..i] == s[..i];
      if !IsDigit(s[i]) {
        return None;
      }
      if acc * 10 > max {
        DigitsValuePrefix(s[..i + 1], i);
        if AllDigits(s) {
          DigitsValuePrefix(s, i + 1);
        }
        return None;
      }
      var v := acc * 10 + DigitValue(s[i]);
      if v > max {
        if AllDigits(s) {
          DigitsValuePrefix(s, i + 1);
        }
        return None;
      }
      acc := v;
    }
    assert s[..|s|] == s;
    return Some(acc);
  }

  /** `parse_dt`: the year is parsed as `u16`, month and day as `u8`, and the
      date is accepted when 2199 < year < 3000, month < 13 and day < 31.
      There is no lower bound on month or day. */
  function ParseDt(g: Groups): (r: Option<Date>)
    ensures r.Some? ==>
      && ParseUnsigned(g.year, 0xFFFF) == Some(r.value.year)
      && ParseUnsigned(g.month, 0xFF) == Some(r.value.month)
      && ParseUnsigned(g.day, 0xFF) == Some(r.value.day)
      && InParserRange(r.value.year, r.value.month, r.value.day)
  {
    match ParseUnsigned(g.year, 0xFFFF)
    case None => None
    case Some(y) =>
      match ParseUnsigned(g.month, 0xFF)
      case None => None
      case Some(m) =>
        match ParseUnsigned(g.day, 0xFF)
        case None => None
        case Some(d) =>
          if y < 3000 && y > 2199 && m < 13 && d < 31 then Some(Date(y, m, d)) else None
  }

  /** The bounds check of `parse_dt`. */
  predicate InParserRange(y: int, m: int, d: int) {
    2199 < y < 3000 && 0 <= m < 13 && 0 <= d < 31
  }

  /** On groups of the regex's shape, `parse_dt` accepts exactly the values
      inside its bounds and returns exactly the parsed fields. */
  lemma ParseDtOnDigitGroups(g: Groups)
    requires |g.year| == 4 && |g.month| == 2 && |g.day| == 2
    requires AllDigits(g.year) && AllDigits(g.month) && AllDigits(g.day)
    ensures ParseDt(g).Some? <==>
      InParserRange(DigitsValue(g.year), DigitsValue(g.month), DigitsValue(g.day))
    ensures ParseDt(g).Some? ==>
      ParseDt(g).value == Date(DigitsValue(g.year), DigitsValue(g.month), DigitsValue(g.day))
  {
    DigitsValueBound(g.year);
    DigitsValueBound(g.month);
    DigitsValueBound(g.day);
    assert Pow10(4) == 10000 && Pow10(2) == 100;
  }

  /** `recognize_date` after the OCR step: trim, match, parse. Text of the
      date's shape after trimming is read as its three digit groups, and the
      date is returned exactly when their values are inside the parser's
      bounds. */
  function Recognize(text: string): (r: Option<Date>)
    ensures MatchDate(Trim(text)).None? ==> r.None?
    ensures MatchDate(Trim(text)).Some? ==>
      (var t := Trim(text);
       var y, m, d := DigitsValue(t[..4]), DigitsValue(t[5..7]), DigitsValue(t[8..]);
       r == if InParserRange(y, m, d) then Some(Date(y, m, d)) else None)
    ensures r.Some? ==> InParserRange(r.value.year, r.value.month, r.value.day)
  {
    match MatchDate(Trim(text))
    case None => None
    case Some(g) =>
      ParseDtOnDigitGroups(g);
      ParseDt(g)
  }

  /** `n` written in exactly `width` decimal digits, zero-padded on the left. */
  function PadDigits(n: nat, width: nat): (s: string)
    ensures |s| == width && AllDigits(s)
  {
    if width == 0 then [] else PadDigits(n / 10, width - 1) + ['0' + (n % 10) as char]
  }

  lemma {:induction false} PadDigitsValue(n: nat, width: nat)
    requires n < Pow10(width)
    ensures DigitsValue(PadDigits(n, width)) == n
  {
    if width > 0 {
      var s := PadDigits(n, width);
      assert s[..|s| - 1] == PadDigits(n / 10, width - 1);
      assert n / 10 < Pow10(width - 1);
      PadDigitsValue(n / 10, width - 1);
      assert DigitValue(s[|s| - 1]) == n % 10;
      assert n == n / 10 * 10 + n % 10;
    }
  }

  /** A date written the way the game shows it: `YYYY.MM.DD`, zero-padded. */
  function FormatPadded(d: Date): (s: string)
    requires d.year < 10000 && d.month < 100 && d.day < 100
    ensures |s| == 10
  {
    PadDigits(d.year, 4) + "." + PadDigits(d.month, 2) + "." + PadDigits(d.day, 2)
  }

  /** Round trip: every date inside the parser's bounds, written zero-padded
      and surrounded by any white space, is recognised as itself. */
  lemma RecognizeFormatPadded(d: Date, pre: string, post: string)
    requires InParserRange(d.year, d.month, d.day)
    requires AllWhiteSpace(pre) && AllWhiteSpace(post)
    ensures Recognize(pre + FormatPadded(d) + post) == Some(d)
  {
    var s := FormatPadded(d);
    var g := Groups(PadDigits(d.year, 4), PadDigits(d.month, 2), PadDigits(d.day, 2));
    MatchFormatPadded(d);
    TrimPadded(pre, s, post);
    ParseDtPadded(d);
  }

  /** The padded form has the regex's shape, and the groups are the padded
      fields. */
  lemma MatchFormatPadded(d: Date)
    requires InParserRange(d.year, d.month, d.day)
    ensures var s := FormatPadded(d);
      && !IsWhiteSpace(s[0]) && !IsWhiteSpace(s[9])
      && MatchDate(s) == Some(Groups(PadDigits(d.year, 4), PadDigits(d.month, 2), PadDigits(d.day, 2)))
  {
    var s := FormatPadded(d);
    var y, m, dd := PadDigits(d.year, 4), PadDigits(d.month, 2), PadDigits(d.day, 2);
    assert s == y + "." + m + "." + dd;
    assert s[..4] == y && s[5..7] == m && s[8..] == dd;
    assert s[4] == '.' && s[7] == '.';
    assert s[0] == y[0] && s[9] == dd[1];
  }

  /** The padded fields of a date inside the bounds parse back to it. */
  lemma ParseDtPadded(d: Date)
    requires InParserRange(d.year, d.month, d.day)
    ensures ParseDt(Groups(PadDigits(d.year, 4), PadDigits(d.month, 2), PadDigits(d.day, 2))) == Some(d)
  {
    assert Pow10(4) == 10000 && Pow10(2) == 100;
    PadDigitsValue(d.year, 4);
    PadDigitsValue(d.month, 2);
    PadDigitsValue(d.day, 2);
    ParseDtOnDigitGroups(Groups(PadDigits(d.year, 4), PadDigits(d.month, 2), PadDigits(d.day, 2)));
  }

  /** Everything the parser returns is inside its bounds, and conversely every
      date inside them can be read: the accepted set is exactly the bounds. */
  lemma RecognizedDatesAreExactlyParserRange(d: Date)
    ensures (exists text :: Recognize(text) == Some(d)) <==> InParserRange(d.year, d.month, d.day)
  {
    if InParserRange(d.year, d.month, d.day) {
      RecognizeFormatPadded(d, "", "");
      assert "" + FormatPadded(d) + "" == FormatPadded(d);
    }
  }

  /** The missing lower bound: month 0 and day 0 are recognised, so the
      parser can yield dates outside the calendar's radix. */
  lemma ParserAcceptsZeroMonthAndDay()
    ensures Recognize(FormatPadded(Date(2200, 0, 0))) == Some(Date(2200, 0, 0))
    ensures Recognize(FormatPadded(Date(2200, 0, 30))) == Some(Date(2200, 0, 30))
    ensures Recognize(FormatPadded(Date(2200, 1, 0))) == Some(Date(2200, 1, 0))
    ensures !Valid(Date(2200, 0, 0))
  {
    RecognizeFormatPadded(Date(2200, 0, 0), "", "");
    assert "" + FormatPadded(Date(2200, 0, 0)) + "" == FormatPadded(Date(2200, 0, 0));
    RecognizeFormatPadded(Date(2200, 0, 30), "", "");
    assert "" + FormatPadded(Date(2200, 0, 30)) + "" == FormatPadded(Date(2200, 0, 30));
    RecognizeFormatPadded(Date(2200, 1, 0), "", "");
    assert "" + FormatPadded(Date(2200, 1, 0)) + "" == FormatPadded(Date(2200, 1, 0));
  }

  lemma TwoDigitsValue(s: string)
    requires |s| == 2 && AllDigits(s)
    ensures DigitsValue(s) == DigitValue(s[0]) * 10 + DigitValue(s[1])
  {
    assert s[..1][..0] == [];
    assert DigitsValue(s[..1]) == DigitValue(s[0]);
    assert DigitsValue(s) == DigitsValue(s[..1]) * 10 + DigitValue(s[1]);
  }

  lemma FourDigitsValue(s: string)
    requires |s| == 4 && AllDigits(s)
    ensures DigitsValue(s) ==
      DigitValue(s[0]) * 1000 + DigitValue(s[1]) * 100 + DigitValue(s[2]) * 10 + DigitValue(s[3])
  {
    assert s[..3][..2] == s[..2];
    TwoDigitsValue(s[..2]);
  }

  /** Recognition of a ten-character text without surrounding white space,
      digit by digit. */
  lemma RecognizeTenChars(t: string)
    requires |t| == 10 && !IsWhiteSpace(t[0]) && !IsWhiteSpace(t[9])
    requires AllDigits(t[..4]) && AllDigits(t[5..7]) && AllDigits(t[8..])
    requires t[4] != '\n' && t[7] != '\n'
    ensures Recognize(t) ==
      (var y, m, d := DigitsValue(t[..4]), DigitsValue(t[5..7]), DigitsValue(t[8..]);
       if InParserRange(y, m, d) then Some(Date(y, m, d)) else None)
  {
    TrimPadded("", t, "");
    assert "" + t + "" == t;
    ParseDtOnDigitGroups(MatchDate(t).value);
  }

  /** The worked examples: an in-range date is read, a year, month or day
      outside the bounds is rejected, and text of the wrong shape is ignored. */
  lemma ParserExampleAccepted()
    ensures Recognize("2250.06.15") == Some(Date(2250, 6, 15))
  {
    var t := "2250.06.15";
    assert t[..4] == "2250" && t[5..7] == "06" && t[8..] == "15";
    assert DigitsValue("2250") == 2250 by { FourDigitsValue("2250"); }
    assert DigitsValue("06") == 6 by { TwoDigitsValue("06"); }
    assert DigitsValue("15") == 15 by { TwoDigitsValue("15"); }
    RecognizeTenChars(t);
  }

  lemma ParserExampleYearRejected()
    ensures Recognize("2100.01.01") == None
  {
    var t := "2100.01.01";
    assert t[..4] == "2100";
    RecognizeTenChars(t);
    FourDigitsValue("2100");
  }

  lemma ParserExampleMonthRejected()
    ensures Recognize("2250.13.01") == None
  {
    var t := "2250.13.01";
    assert t[5..7] == "13";
    RecognizeTenChars(t);
    TwoDigitsValue("13");
  }

  lemma ParserExampleDayRejected()
    ensures Recognize("2250.06.31") == None
  {
    var t := "2250.06.31";
    assert t[8..] == "31";
    RecognizeTenChars(t);
    TwoDigitsValue("31");
  }

  lemma ParserExampleNoMatch()
    ensures Recognize("abcd") == None
  {
    TrimPadded("", "abcd", "");
    assert "" + "abcd" + "" == "abcd";
  }
}
