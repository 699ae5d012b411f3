/**
  `parse_date` (post.py:64-74): an optional leading `YYYY-M-D` date. The
  pattern `\d{4}-\d{1,2}-\d{1,2}` is matched at the start of the stripped
  text; the captured numbers must form a date that `datetime.date`
  accepts; otherwise the caller-supplied `today` is used and the text is
  returned unchanged. Digits are ASCII digits.
*/
module DateExtractor {
  import opened Wrappers
  import opened Strings
  import opened Calendar

  // ---------------------------------------------------------------------
  // datetime.date(year, month, day)
  // ---------------------------------------------------------------------

  /** Why `datetime.date` refuses its arguments (it raises ValueError). */
  datatype DateError = YearOutOfRange(year: int) | MonthOutOfRange(month: int) | DayOutOfRange(day: int)

  /** `datetime.date(y, m, d)`, checking year, then month, then day, as
      CPython does; no value is ever wrapped or defaulted. */
  function MakeDate(y: int, m: int, d: int): (r: Result<Date, DateError>)
    ensures r.Ok? <==> Date(y, m, d).Valid()
    ensures r.Ok? ==> r.value == Date(y, m, d)
    ensures r.Err? && r.error.YearOutOfRange? ==> y < MinYear || y > MaxYear
    ensures r.Err? && r.error.MonthOutOfRange? ==> MinYear <= y <= MaxYear && (m < 1 || m > 12)
    ensures r.Err? && r.error.DayOutOfRange? ==> 1 <= m <= 12 && (d < 1 || d > DaysInMonth(y, m))
  {
    if !(MinYear <= y <= MaxYear) then Err(YearOutOfRange(y))
    else if !(1 <= m <= 12) then Err(MonthOutOfRange(m))
    else if !(1 <= d <= DaysInMonth(y, m)) then Err(DayOutOfRange(d))
    else Ok(Date(y, m, d))
  }

  // ---------------------------------------------------------------------
  // re.match(r"(?P<year>\d{4})-(?P<month>\d{1,2})-(?P<day>\d{1,2})", s)
  // ---------------------------------------------------------------------

  /** A string the pattern matches in full: four digits, a hyphen, one or
      two digits, a hyphen, one or two digits. */
  predicate IsDateToken(t: string) {
    TokenWithMonthLength(t, 1) || TokenWithMonthLength(t, 2)
  }

  predicate TokenWithMonthLength(t: string, ml: nat) {
    7 + ml <= |t| <= 8 + ml
    && AllDigits(t[..4]) && t[4] == '-'
    && AllDigits(t[5..5 + ml]) && t[5 + ml] == '-'
    && AllDigits(t[6 + ml..])
  }

  /** The three groups of a match. */
  datatype DateMatch = DateMatch(year: string, month: string, day: string) {
    predicate WellFormed() {
      |year| == 4 && 1 <= |month| <= 2 && 1 <= |day| <= 2
      && AllDigits(year) && AllDigits(month) && AllDigits(day)
    }

    /** `m.end()`: the length of the matched prefix. */
    function End(): nat {
      |year| + 1 + |month| + 1 + |day|
    }

    /** `m.group(0)`: the text the pattern matched. */
    function Token(): string {
      year + "-" + month + "-" + day
    }

    /** `[int(m.group(n)) for n in ["year", "month", "day"]]`. */
    function Numbers(): (int, int, int)
      requires WellFormed()
    {
      (ParseDigits(year), ParseDigits(month), ParseDigits(day))
    }
  }

  /** The pattern applied at the start of `s`. `\d{1,2}` is greedy and
      backtracks: the month takes two digits only when a hyphen follows
      them, the day takes two digits whenever two are there. */
  function MatchDate(s: string): (r: Option<DateMatch>)
    ensures r.Some? ==> r.value.WellFormed() && r.value.End() <= |s| && s[..r.value.End()] == r.value.Token()
  {
    if |s| < 7 || !AllDigits(s[..4]) || s[4] != '-' || !IsDigit(s[5]) then None
    else
      var ml := if IsDigit(s[6]) then 2 else 1;
      if |s| <= 5 + ml || s[5 + ml] != '-' then None
      else
        var ds := 6 + ml;
        if |s| <= ds || !IsDigit(s[ds]) then None
        else
          var dl := if ds + 1 < |s| && IsDigit(s[ds + 1]) then 2 else 1;
          GroupsAt(s, ml, dl);
          Some(DateMatch(s[..4], s[5..5 + ml], s[ds..ds + dl]))
  }

  /** Three digit groups separated by hyphens at the start of `s` make a
      well-formed match whose text is that prefix. */
  lemma GroupsAt(s: string, ml: nat, dl: nat)
    requires 1 <= ml <= 2 && 1 <= dl <= 2 && 6 + ml + dl <= |s|
    requires AllDigits(s[..4]) && s[4] == '-' && s[5 + ml] == '-'
    requires IsDigit(s[5]) && (ml == 2 ==> IsDigit(s[6]))
    requires IsDigit(s[6 + ml]) && (dl == 2 ==> IsDigit(s[7 + ml]))
    ensures var m := DateMatch(s[..4], s[5..5 + ml], s[6 + ml..6 + ml + dl]);
      m.WellFormed() && m.End() == 6 + ml + dl && s[..m.End()] == m.Token()
  {
    var m := DateMatch(s[..4], s[5..5 + ml], s[6 + ml..6 + ml + dl]);
    forall k | 0 <= k < ml ensures IsDigit(m.month[k]) {
      assert m.month[k] == s[5 + k];
    }
    forall k | 0 <= k < dl ensures IsDigit(m.day[k]) {
      assert m.day[k] == s[6 + ml + k];
    }
    assert s[..m.End()] == m.Token();
  }

  /** A match is a prefix the pattern matches in full, and no longer prefix
      is one (the greedy choice). */
  lemma MatchDateSound(s: string)
    requires MatchDate(s).Some?
    ensures IsDateToken(s[..MatchDate(s).value.End()])
    ensures forall e :: MatchDate(s).value.End() < e <= |s| ==> !IsDateToken(s[..e])
  {
    var m := MatchDate(s).value;
    var t := s[..m.End()];
    assert TokenWithMonthLength(t, |m.month|);
    forall e | m.End() < e <= |s| ensures !IsDateToken(s[..e]) {
      NoLongerToken(s, e);
    }
  }

  /** A prefix longer than the match is no date token: the month group
      cannot take a different length, and the day group either has two
      digits already or is followed by something other than a digit. */
  lemma NoLongerToken(s: string, e: nat)
    requires MatchDate(s).Some? && MatchDate(s).value.End() < e <= |s|
    ensures !IsDateToken(s[..e])
  {
    var m := MatchDate(s).value;
    var u := s[..e];
    var ml, dl := |m.month|, |m.day|;
    var ds := 6 + ml;
    assert ml == (if IsDigit(s[6]) then 2 else 1);
    assert dl == (if ds + 1 < |s| && IsDigit(s[ds + 1]) then 2 else 1);
    assert u[6] == s[6] && u[5 + ml] == s[5 + ml] == '-';
    if ml == 1 {
      assert u[5..7][1] == '-';
    }
    if dl == 1 {
      assert u[ds..][1] == u[ds + 1] == s[ds + 1];
    }
  }

  /** No match means that no prefix of `s` has the shape of a date. */
  lemma MatchDateComplete(s: string)
    requires MatchDate(s).None?
    ensures forall e :: 0 <= e <= |s| ==> !IsDateToken(s[..e])
  {
    forall e | 0 <= e <= |s| ensures !IsDateToken(s[..e]) {
      NoToken(s, e);
    }
  }

  /** A date token at the start of `s` is what `MatchDate` looks for: its
      digits and hyphens pass every test the matcher makes. */
  lemma NoToken(s: string, e: nat)
    requires MatchDate(s).None? && e <= |s|
    ensures !IsDateToken(s[..e])
  {
    var u := s[..e];
    if |u| >= 8 {
      assert u[..4] == s[..4];
      assert u[4] == s[4] && u[5] == s[5] && u[6] == s[6] && u[7] == s[7];
      assert u[5..6][0] == u[5] && u[5..7][1] == u[6] && u[7..][0] == u[7];
      if |u| >= 9 {
        assert u[8] == s[8] && u[8..][0] == u[8];
      }
    }
  }

  /** The groups of a text that starts with a date token not followed by a
      further digit of the day. */
  lemma {:induction false} MatchDateOfToken(s: string, m: DateMatch, rest: string)
    requires m.WellFormed() && s == m.Token() + rest
    requires |m.day| == 2 || rest == [] || !IsDigit(rest[0])
    ensures MatchDate(s) == Some(m)
  {
    assert s[..4] == m.year;
    assert s[4] == '-';
    assert s[5] == m.month[0];
    if |m.month| == 1 {
      assert s[6] == '-';
      assert s[5..6] == m.month;
      assert s[7..7 + |m.day|] == m.day;
      if |m.day| == 1 && |s| > 8 {
        assert s[8] == rest[0];
      }
    } else {
      assert s[6] == m.month[1] && s[7] == '-';
      assert s[5..7] == m.month;
      assert s[8..8 + |m.day|] == m.day;
      if |m.day| == 1 && |s| > 9 {
        assert s[9] == rest[0];
      }
    }
  }

  // ---------------------------------------------------------------------
  // parse_date
  // ---------------------------------------------------------------------

  /** What `parse_date` returns: the date and the remaining text. `usedToday`
      stands for the warning printed when no date prefix is found. */
  datatype Extracted = Extracted(date: Date, text: string, usedToday: bool)

  function MatchedDate(m: DateMatch): Result<Date, DateError>
    requires m.WellFormed()
  {
    var (y, mo, d) := m.Numbers();
    MakeDate(y, mo, d)
  }

  /** `parse_date` as written: the match is taken on the stripped text, but
      the remainder is sliced from the unstripped text at `m.end()`. */
  function ParseDateAsWritten(markdown: string, today: Date): (r: Result<Extracted, DateError>)
    ensures var found := MatchDate(Strip(markdown));
      && (r.Err? <==> found.Some? && MatchedDate(found.value).Err?)
      && (r.Ok? ==> (r.value.usedToday <==> found.None?))
      && (r.Ok? && r.value.usedToday ==> r.value.date == today && r.value.text == markdown)
      && (r.Ok? && !r.value.usedToday ==>
            r.value.date == MatchedDate(found.value).value && r.value.date.Valid() && IsTrimmed(r.value.text))
  {
    var st := Strip(markdown);
    match MatchDate(st)
    case None => Ok(Extracted(today, markdown, true))
    case Some(m) =>
      match MatchedDate(m)
      case Err(e) => Err(e)
      case Ok(d) => Ok(Extracted(d, Strip(markdown[m.End()..]), false))
  }

  /** `parse_date` with the remainder taken from the stripped text it was
      matched against. */
  function ParseDate(markdown: string, today: Date): (r: Result<Extracted, DateError>)
    requires today.Valid()
    ensures var found := MatchDate(Strip(markdown));
      && (r.Err? <==> found.Some? && MatchedDate(found.value).Err?)
      && (r.Ok? ==> r.value.date.Valid() && (r.value.usedToday <==> found.None?))
      && (r.Ok? && r.value.usedToday ==> r.value.date == today && r.value.text == markdown)
      && (r.Ok? && !r.value.usedToday ==>
            r.value.date == MatchedDate(found.value).value && IsTrimmed(r.value.text)
            && Strip(markdown)[..found.value.End()] == found.value.Token())
  {
    var st := Strip(markdown);
    match MatchDate(st)
    case None => Ok(Extracted(today, markdown, true))
    case Some(m) =>
      match MatchedDate(m)
      case Err(e) => Err(e)
      case Ok(d) => Ok(Extracted(d, Strip(st[m.End()..]), false))
  }

  // ---------------------------------------------------------------------
  // Properties
  // ---------------------------------------------------------------------

  /** `Strip` gives the one trimmed core between two whitespace runs. */
  lemma StripUnique(s: string, p: string, c: string, q: string)
    requires s == p + c + q && IsTrimmed(c)
    requires forall k :: 0 <= k < |p| ==> IsSpace(p[k])
    requires forall k :: 0 <= k < |q| ==> IsSpace(q[k])
    ensures Strip(s) == c
  {
    var r := Strip(s);
    var l := LeadingSpaces(s);
    StripSlice(s);
    assert forall k :: 0 <= k < |p| ==> IsSpace(s[k]);
    assert forall k :: |p| + |c| <= k < |s| ==> IsSpace(s[k]);
    if c != [] {
      assert s[|p|] == c[0];
      assert s[|p| + |c| - 1] == c[|c| - 1];
      assert l == |p|;
      assert l + |r| == |p| + |c|;
      assert r == s[|p|..|p| + |c|] == c;
    }
  }

  /** Trailing whitespace does not change what `Strip` returns. */
  lemma StripAppendSpaces(x: string, w: string)
    requires forall k :: 0 <= k < |w| ==> IsSpace(w[k])
    ensures Strip(x + w) == Strip(x)
  {
    var l := LeadingSpaces(x);
    var c := Strip(x);
    StripSlice(x);
    var p, q := x[..l], x[l + |c|..];
    assert x == p + c + q;
    assert forall k :: 0 <= k < |q| ==> q[k] == x[l + |c| + k];
    assert forall k :: 0 <= k < |q + w| ==> IsSpace((q + w)[k]);
    StripUnique(x + w, p, c, q + w);
  }

  /** Leading whitespace does not change what `Strip` returns. */
  lemma StripPrependSpaces(w: string, x: string)
    requires forall k :: 0 <= k < |w| ==> IsSpace(w[k])
    ensures Strip(w + x) == Strip(x)
  {
    var l := LeadingSpaces(x);
    var c := Strip(x);
    StripSlice(x);
    var p, q := x[..l], x[l + |c|..];
    assert x == p + c + q;
    forall k | 0 <= k < |q| ensures IsSpace(q[k]) {
      assert q[k] == x[l + |c| + k];
    }
    var wp := w + p;
    forall k | 0 <= k < |wp| ensures IsSpace(wp[k]) {
      if k < |w| {
        assert wp[k] == w[k];
      } else {
        assert wp[k] == p[k - |w|] == x[k - |w|];
      }
    }
    assert w + x == wp + c + q;
    StripUnique(w + x, wp, c, q);
  }

  /** A text that does not start with whitespace is its stripped form
      followed by a run of whitespace. */
  lemma UnindentedSplit(s: string)
    requires s == [] || !IsSpace(s[0])
    ensures |Strip(s)| <= |s| && s == Strip(s) + s[|Strip(s)|..]
    ensures forall k :: 0 <= k < |s| - |Strip(s)| ==> IsSpace(s[|Strip(s)|..][k])
  {
    StripOfUnindented(s);
    var n := |Strip(s)|;
    forall k | 0 <= k < |s| - n ensures IsSpace(s[n..][k]) {
      assert s[n..][k] == s[n + k];
    }
  }

  /** On a text without leading whitespace (`get_code_markdown` strips its
      result, post.py:57) the as-written slice and the corrected one agree. */
  lemma ParseDateAgreesOnTrimmed(markdown: string, today: Date)
    requires today.Valid()
    requires markdown == [] || !IsSpace(markdown[0])
    ensures ParseDateAsWritten(markdown, today) == ParseDate(markdown, today)
  {
    var st := Strip(markdown);
    if MatchDate(st).Some? {
      var e := MatchDate(st).value.End();
      UnindentedSplit(markdown);
      var tail := markdown[|st|..];
      assert markdown[e..] == st[e..] + tail;
      StripAppendSpaces(st[e..], tail);
    }
  }

  /** A text that starts with a date token: the stripped text matches with
      the same groups, and what follows the match strips to what follows the
      token. */
  lemma TokenPrefixStrip(markdown: string, m: DateMatch, rest: string)
    requires m.WellFormed() && markdown == m.Token() + rest
    requires |m.day| == 2 || rest == [] || !IsDigit(rest[0])
    ensures m.End() <= |Strip(markdown)| && MatchDate(Strip(markdown)) == Some(m)
    ensures Strip(Strip(markdown)[m.End()..]) == Strip(rest)
  {
    var t := m.Token();
    assert markdown[0] == m.year[0];
    UnindentedSplit(markdown);
    var st := Strip(markdown);
    var w := markdown[|st|..];
    assert markdown[|t| - 1] == m.day[|m.day| - 1];
    assert |t| <= |st|;
    var r := st[|t|..];
    assert st == t + r;
    assert rest == r + w;
    assert r == [] || r[0] == rest[0];
    MatchDateOfToken(st, m, r);
    StripAppendSpaces(r, w);
  }

  /** A leading date token that forms a valid date is parsed exactly, and the
      remainder is what follows the token, stripped. Example: in
      "2024-1-155 x" the day is 15 and the remainder "5 x". */
  lemma DatePrefixParsed(markdown: string, today: Date, m: DateMatch, rest: string)
    requires today.Valid()
    requires m.WellFormed() && markdown == m.Token() + rest
    requires |m.day| == 2 || rest == [] || !IsDigit(rest[0])
    requires MatchedDate(m).Ok?
    ensures ParseDate(markdown, today) == Ok(Extracted(MatchedDate(m).value, Strip(rest), false))
    ensures ParseDateAsWritten(markdown, today) == ParseDate(markdown, today)
  {
    assert markdown[0] == m.year[0];
    ParseDateAgreesOnTrimmed(markdown, today);
    TokenPrefixStrip(markdown, m, rest);
  }

  /** Once a date prefix is found, indentation before it changes nothing:
      the match and the remainder are both taken from the stripped text. */
  lemma ParseDateIgnoresIndent(w: string, markdown: string, today: Date)
    requires today.Valid()
    requires forall k :: 0 <= k < |w| ==> IsSpace(w[k])
    requires MatchDate(Strip(markdown)).Some?
    ensures ParseDate(w + markdown, today) == ParseDate(markdown, today)
  {
    StripPrependSpaces(w, markdown);
  }

  /** A date token after a run of whitespace is parsed exactly as one at the
      very start: the date, and what follows the token, stripped. */
  lemma IndentedDatePrefixParsed(w: string, markdown: string, today: Date, m: DateMatch, rest: string)
    requires today.Valid()
    requires forall k :: 0 <= k < |w| ==> IsSpace(w[k])
    requires m.WellFormed() && markdown == w + m.Token() + rest
    requires |m.day| == 2 || rest == [] || !IsDigit(rest[0])
    requires MatchedDate(m).Ok?
    ensures ParseDate(markdown, today) == Ok(Extracted(MatchedDate(m).value, Strip(rest), false))
  {
    var u := m.Token() + rest;
    assert markdown == w + u;
    DatePrefixParsed(u, today, m, rest);
    TokenPrefixStrip(u, m, rest);
    ParseDateIgnoresIndent(w, u, today);
  }

  /** A date-shaped prefix whose numbers are not a date is an error, with
      the reason `datetime.date` gives. */
  lemma InvalidDateRejected(markdown: string, today: Date, m: DateMatch, rest: string)
    requires today.Valid()
    requires m.WellFormed() && markdown == m.Token() + rest
    requires |m.day| == 2 || rest == [] || !IsDigit(rest[0])
    requires MatchedDate(m).Err?
    ensures ParseDate(markdown, today) == Err(MatchedDate(m).error)
    ensures ParseDateAsWritten(markdown, today) == ParseDate(markdown, today)
  {
    assert markdown[0] == m.year[0];
    ParseDateAgreesOnTrimmed(markdown, today);
    TokenPrefixStrip(markdown, m, rest);
  }

  /** Without a date prefix, the date is `today` and the text is returned
      unchanged (not stripped). */
  lemma NoPrefixMeansToday(markdown: string, today: Date)
    requires today.Valid()
    requires forall e :: 0 <= e <= |Strip(markdown)| ==> !IsDateToken(Strip(markdown)[..e])
    ensures ParseDate(markdown, today) == Ok(Extracted(today, markdown, true))
    ensures ParseDateAsWritten(markdown, today) == ParseDate(markdown, today)
  {
    var st := Strip(markdown);
    if MatchDate(st).Some? {
      MatchDateSound(st);
    }
  }

  /** The as-written slice goes wrong when the text has leading whitespace:
      the match end counts from the stripped text, so the slice cuts one
      character early and the last digit of the day is left in the text. */
  lemma ParseDateAsWrittenMisaligned(today: Date)
    requires today.Valid()
    ensures ParseDateAsWritten(" 2024-1-15 hello", today) == Ok(Extracted(Date(2024, 1, 15), "5 hello", false))
    ensures ParseDate(" 2024-1-15 hello", today) == Ok(Extracted(Date(2024, 1, 15), "hello", false))
  {
    MisalignedMatch();
    MisalignedRemainders();
  }

  lemma MisalignedMatch()
    ensures Strip(" 2024-1-15 hello") == "2024-1-15 hello"
    ensures MatchDate("2024-1-15 hello") == Some(DateMatch("2024", "1", "15"))
    ensures MatchedDate(DateMatch("2024", "1", "15")) == Ok(Date(2024, 1, 15))
  {
    MisalignedStrip();
    MisalignedGroups();
    MisalignedNumbers();
  }

  lemma MisalignedStrip()
    ensures Strip(" 2024-1-15 hello") == "2024-1-15 hello"
  {
    var s, t := " 2024-1-15 hello", "2024-1-15 hello";
    assert s == " " + t + "";
    StripUnique(s, " ", t, "");
  }

  lemma MisalignedGroups()
    ensures MatchDate("2024-1-15 hello") == Some(DateMatch("2024", "1", "15"))
  {
    var t, m := "2024-1-15 hello", DateMatch("2024", "1", "15");
    assert t == m.Token() + " hello";
    MatchDateOfToken(t, m, " hello");
  }

  lemma MisalignedNumbers()
    ensures MatchedDate(DateMatch("2024", "1", "15")) == Ok(Date(2024, 1, 15))
  {
    ParseYear2024();
    assert "15"[..1] == "1";
    assert "1"[..0] == "";
  }

  lemma MisalignedRemainders()
    ensures Strip(" 2024-1-15 hello"[9..]) == "5 hello"
    ensures Strip("2024-1-15 hello"[9..]) == "hello"
  {
    assert " 2024-1-15 hello"[9..] == "5 hello";
    StripOfTrimmed("5 hello");
    assert "2024-1-15 hello"[9..] == " " + "hello" + "";
    StripUnique(" hello", " ", "hello", "");
  }

  lemma ParseYear2024()
    ensures ParseDigits("2024") == 2024
  {
    assert "2024"[..3] == "202";
    assert "202"[..2] == "20";
    assert "20"[..1] == "2";
    assert "2"[..0] == "";
  }
}
