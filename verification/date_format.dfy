/**
 * `formatDateWithMonthName`: renders a ticket's creation time as
 * "DD MonthName YYYY, HH:MM". The fixed day/month/year pattern is matched
 * character by character; anything else goes to the host's `Date` parser,
 * which is a parameter here because its result depends on the host's parsing
 * rules, time zone and locale.
 */
module DateFormat {
  import opened Wrappers
  import opened JsText

  /** The five captures of the pattern, as the strings matched. */
  datatype DateParts = DateParts(day: string, month: string, year: string, hour: string, minute: string)

  predicate WellFormed(p: DateParts) {
    && |p.day| == 2 && AllDigits(p.day)
    && |p.month| == 2 && AllDigits(p.month)
    && |p.year| == 4 && AllDigits(p.year)
    && |p.hour| == 2 && AllDigits(p.hour)
    && |p.minute| == 2 && AllDigits(p.minute)
  }

  predicate IsDateSeparator(c: char) {
    c == '/' || c == '-'
  }

  predicate AllSpaces(s: string) {
    forall i :: 0 <= i < |s| ==> IsJsSpace(s[i])
  }

  /** The fixed-width date part of an accepted string: `DD/MM/YYYY`, either separator. */
  function Head(p: DateParts, sep1: char, sep2: char): string {
    p.day + [sep1] + p.month + [sep2] + p.year
  }

  /**
   * A string the pattern `^(\d{2})[\/\-](\d{2})[\/\-](\d{4}),?\s*(\d{2}):(\d{2})`
   * accepts: the date, an optional comma, white space and the time.
   */
  function Render(p: DateParts, sep1: char, sep2: char, comma: bool, spaces: string): string {
    Head(p, sep1, sep2) + (if comma then "," else "") + spaces + p.hour + ":" + p.minute
  }

  predicate HeadOk(h: string)
    requires |h| == 10
  {
    AllDigits(h[..2]) && IsDateSeparator(h[2]) && AllDigits(h[3..5]) && IsDateSeparator(h[5])
      && AllDigits(h[6..])
  }

  predicate TimeOk(t: string) {
    |t| >= 5 && AllDigits(t[..2]) && t[2] == ':' && AllDigits(t[3..5])
  }

  function SkipComma(t: string): string {
    if t != [] && t[0] == ',' then t[1..] else t
  }

  /** What the time captures are read from: the text after the date, past an optional comma and white space. */
  function TimePart(s: string): string
    requires |s| >= 10
  {
    TrimStart(SkipComma(s[10..]))
  }

  /** The five captures, read off an accepted date part and time part. */
  function Captures(h: string, t: string): DateParts
    requires |h| == 10 && |t| >= 5
  {
    DateParts(h[..2], h[3..5], h[6..], t[..2], t[3..5])
  }

  /**
   * The pattern, anchored at the start only. Neither `,?` nor `\s*` can give
   * anything back to the digits that follow them, so the match is decided
   * left to right without backtracking.
   */
  function MatchDate(s: string): (r: Option<DateParts>)
    ensures r.Some? ==> WellFormed(r.value)
  {
    if |s| < 10 || !HeadOk(s[..10]) || !TimeOk(TimePart(s)) then None
    else Some(Captures(s[..10], TimePart(s)))
  }

  lemma {:induction false} TrimStartSpaces(spaces: string, t: string)
    requires AllSpaces(spaces)
    requires t == [] || !IsJsSpace(t[0])
    ensures TrimStart(spaces + t) == t
  {
    if spaces == [] {
      assert spaces + t == t;
    } else {
      assert (spaces + t)[0] == spaces[0];
      assert (spaces + t)[1..] == spaces[1..] + t;
      TrimStartSpaces(spaces[1..], t);
    }
  }

  lemma HeadParts(p: DateParts, sep1: char, sep2: char)
    requires WellFormed(p) && IsDateSeparator(sep1) && IsDateSeparator(sep2)
    ensures var h := Head(p, sep1, sep2);
      |h| == 10 && h[..2] == p.day && h[3..5] == p.month && h[6..] == p.year && HeadOk(h)
  {
    var h := Head(p, sep1, sep2);
    assert h[..2] == p.day;
    assert h[3..5] == p.month;
    assert h[6..] == p.year;
  }

  lemma TimeParts(p: DateParts, rest: string)
    requires WellFormed(p)
    ensures var t := p.hour + ":" + p.minute + rest;
      TimeOk(t) && t[..2] == p.hour && t[3..5] == p.minute && !IsJsSpace(t[0])
  {
    var t := p.hour + ":" + p.minute + rest;
    assert t[..2] == p.hour;
    assert t[3..5] == p.minute;
  }

  /** The text after the date part of an accepted string, up to the time. */
  lemma AfterHead(comma: bool, spaces: string, time: string)
    requires AllSpaces(spaces) && time != [] && !IsJsSpace(time[0]) && time[0] != ','
    ensures TrimStart(SkipComma((if comma then "," else "") + spaces + time)) == time
  {
    var tail := (if comma then "," else "") + spaces + time;
    assert SkipComma(tail) == spaces + time by {
      if !comma && spaces != [] {
        assert tail[0] == spaces[0];
      } else if !comma {
        assert tail == time;
      } else {
        assert tail[1..] == spaces + time;
      }
    }
    TrimStartSpaces(spaces, time);
  }

  /** Every string of the accepted shape matches, whatever follows it, with exactly its parts. */
  lemma MatchDateAccepts(p: DateParts, sep1: char, sep2: char, comma: bool, spaces: string, rest: string)
    requires WellFormed(p) && IsDateSeparator(sep1) && IsDateSeparator(sep2) && AllSpaces(spaces)
    ensures MatchDate(Render(p, sep1, sep2, comma, spaces) + rest) == Some(p)
  {
    var h := Head(p, sep1, sep2);
    var time := p.hour + ":" + p.minute + rest;
    var tail := (if comma then "," else "") + spaces + time;
    var s := Render(p, sep1, sep2, comma, spaces) + rest;
    HeadParts(p, sep1, sep2);
    TimeParts(p, rest);
    assert s == h + tail;
    assert s[..10] == h && s[10..] == tail;
    AfterHead(comma, spaces, time);
    assert TimePart(s) == time;
    assert Captures(h, time) == p;
  }

  /** And nothing else matches: a match is always such a string followed by anything. */
  lemma MatchDateOnlyAccepts(s: string)
    requires MatchDate(s).Some?
    ensures exists sep1, sep2, comma, spaces, rest ::
      && IsDateSeparator(sep1) && IsDateSeparator(sep2) && AllSpaces(spaces)
      && s == Render(MatchDate(s).value, sep1, sep2, comma, spaces) + rest
  {
    var comma, spaces, rest := DecomposeMatch(s);
    assert HeadOk(s[..10]);
    var sep1, sep2 := s[2], s[5];
    assert IsDateSeparator(sep1) && IsDateSeparator(sep2);
  }

  lemma DecomposeMatch(s: string) returns (comma: bool, spaces: string, rest: string)
    requires MatchDate(s).Some?
    ensures |s| >= 10 && AllSpaces(spaces)
    ensures s == Render(MatchDate(s).value, s[2], s[5], comma, spaces) + rest
  {
    var h, time := s[..10], TimePart(s);
    var p := Captures(h, time);
    assert MatchDate(s) == Some(p) && TimeOk(time);
    comma := s[10..] != [] && s[10..][0] == ',';
    var afterComma := SkipComma(s[10..]);
    spaces := LeadingSpaces(afterComma);
    rest := time[5..];
    HeadOfCaptures(h, time);
    TimeOfCaptures(h, time);
    CommaSplit(s[10..]);
    WitnessRender(s, p, s[2], s[5], comma, afterComma, spaces, time, rest);
  }

  lemma HeadOfCaptures(h: string, t: string)
    requires |h| == 10 && |t| >= 5
    ensures h == Head(Captures(h, t), h[2], h[5])
  {
  }

  lemma TimeOfCaptures(h: string, t: string)
    requires |h| == 10 && |t| >= 5 && t[2] == ':'
    ensures t == Captures(h, t).hour + ":" + Captures(h, t).minute + t[5..]
  {
  }

  lemma CommaSplit(tail: string)
    ensures tail == (if tail != [] && tail[0] == ',' then "," else "") + SkipComma(tail)
  {
  }

  lemma WitnessRender(s: string, p: DateParts, sep1: char, sep2: char, comma: bool,
                      afterComma: string, spaces: string, time: string, rest: string)
    requires |s| >= 10 && s[..10] == Head(p, sep1, sep2)
    requires s[10..] == (if comma then "," else "") + afterComma
    requires afterComma == spaces + time && time == p.hour + ":" + p.minute + rest
    ensures s == Render(p, sep1, sep2, comma, spaces) + rest
  {
    assert s == s[..10] + s[10..];
  }

  /** The white space `TrimStart` removes. */
  function LeadingSpaces(s: string): (r: string)
    ensures AllSpaces(r) && s == r + TrimStart(s)
  {
    s[..|s| - |TrimStart(s)|]
  }

  const Months: seq<string> := [
    "January", "February", "March", "April", "May", "June", "July",
    "August", "September", "October", "November", "December"
  ]

  /** `months[parseInt(mm, 10) - 1]` in a template literal: "undefined" outside 01..12. */
  function MonthName(mm: string): string
    requires AllDigits(mm)
  {
    var m := DigitsValue(mm) - 1;
    if 0 <= m < |Months| then Months[m] else "undefined"
  }

  /** `parseInt` of two digits. */
  lemma TwoDigitValue(mm: string)
    requires |mm| == 2 && AllDigits(mm)
    ensures DigitsValue(mm) == 10 * (mm[0] as int - '0' as int) + (mm[1] as int - '0' as int)
  {
    var first := mm[..1];
    assert mm[..|mm| - 1] == first && mm[|mm| - 1] == mm[1];
    assert first[..|first| - 1] == [] && first[|first| - 1] == mm[0];
    assert DigitsValue(first) == mm[0] as int - '0' as int;
    assert DigitsValue(mm) == 10 * DigitsValue(first) + (mm[1] as int - '0' as int);
  }

  /** The calendar fields a successfully parsed host `Date` reports in local time. */
  datatype HostDate = HostDate(day: nat, monthName: string, year: int, hour: nat, minute: nat)

  /** `n.toString().padStart(2, '0')` */
  function Pad2(n: nat): string {
    var d := NatToString(n);
    if |d| < 2 then "0" + d else d
  }

  /** `${year}` for a possibly negative integer year. */
  function IntToString(i: int): string {
    if i < 0 then "-" + NatToString(-i) else NatToString(i)
  }

  /**
   * `formatDateWithMonthName`: empty input gives empty output and nothing else
   * does; a string starting with the fixed pattern keeps its own day digits in
   * front; a string neither the pattern nor the host parser accepts is returned
   * as it is.
   */
  function FormatDateWithMonthName(s: string, parseHost: string -> Option<HostDate>): (r: string)
    ensures r == "" <==> s == ""
    ensures MatchDate(s).Some? ==> |r| >= 2 && r[..2] == s[..2]
    ensures MatchDate(s).None? && parseHost(s).None? ==> r == s
  {
    if s == "" then ""
    else
      match MatchDate(s)
      case Some(p) =>
        p.day + " " + MonthName(p.month) + " " + p.year + ", " + p.hour + ":" + p.minute
      case None =>
        match parseHost(s)
        case Some(dt) =>
          Pad2(dt.day) + " " + dt.monthName + " " + IntToString(dt.year) + ", "
            + Pad2(dt.hour) + ":" + Pad2(dt.minute)
        case None => s
  }

  /**
   * A string beginning with a date of the accepted shape whose month is 01..12
   * is rendered from its own digits and the English month table; what follows
   * the time is ignored and the host parser is never consulted.
   */
  lemma FormatFixedPattern(p: DateParts, sep1: char, sep2: char, comma: bool, spaces: string,
                           rest: string, parseHost: string -> Option<HostDate>)
    requires WellFormed(p) && IsDateSeparator(sep1) && IsDateSeparator(sep2) && AllSpaces(spaces)
    requires 1 <= DigitsValue(p.month) <= 12
    ensures FormatDateWithMonthName(Render(p, sep1, sep2, comma, spaces) + rest, parseHost)
         == p.day + " " + Months[DigitsValue(p.month) - 1] + " " + p.year + ", " + p.hour + ":" + p.minute
  {
    var s := Render(p, sep1, sep2, comma, spaces) + rest;
    MatchDateAccepts(p, sep1, sep2, comma, spaces, rest);
    FormatOfMatch(s, p, parseHost);
  }

  lemma FormatOfMatch(s: string, p: DateParts, parseHost: string -> Option<HostDate>)
    requires MatchDate(s) == Some(p)
    ensures FormatDateWithMonthName(s, parseHost)
         == p.day + " " + MonthName(p.month) + " " + p.year + ", " + p.hour + ":" + p.minute
  {
  }

  /**
   * A month outside 01..12 still matches the pattern: the host parser is not
   * consulted and the month renders as "undefined".
   */
  lemma FormatMonthOutOfRange(p: DateParts, sep1: char, sep2: char, comma: bool, spaces: string,
                              rest: string, parseHost: string -> Option<HostDate>)
    requires WellFormed(p) && IsDateSeparator(sep1) && IsDateSeparator(sep2) && AllSpaces(spaces)
    requires !(1 <= DigitsValue(p.month) <= 12)
    ensures FormatDateWithMonthName(Render(p, sep1, sep2, comma, spaces) + rest, parseHost)
         == p.day + " " + "undefined" + " " + p.year + ", " + p.hour + ":" + p.minute
  {
    var s := Render(p, sep1, sep2, comma, spaces) + rest;
    MatchDateAccepts(p, sep1, sep2, comma, spaces, rest);
    FormatOfMatch(s, p, parseHost);
  }

  /** The host branch renders day, hour and minute as two digits that read back as the host's values. */
  lemma Pad2RoundTrip(n: nat)
    requires n < 100
    ensures |Pad2(n)| == 2 && AllDigits(Pad2(n)) && DigitsValue(Pad2(n)) == n
  {
    var d := NatToString(n);
    NatToStringRoundTrip(n);
    if |d| < 2 {
      assert Pad2(n)[..1] == "0";
    }
  }

  /** A creation time in the form the ticket feed uses. */
  lemma MatchDateExample(s: string)
    requires s == "25/12/2024,14:30"
    ensures MatchDate(s) == Some(DateParts("25", "12", "2024", "14", "30"))
  {
    var p := DateParts("25", "12", "2024", "14", "30");
    assert Render(p, '/', '/', true, "") + "" == s;
    MatchDateAccepts(p, '/', '/', true, "", "");
  }
}
