/**
  The post date as the reader sees it (post.py:77-113): the weekday and
  month names in French and in English, `format_date_fr`, `format_date_en`
  and `FORMAT_DATE`, whose default gives the empty text for any other part.
  Each format is paired with a decoder that reads the date back.
*/
module DateFormatter {
  import opened Wrappers
  import opened Strings
  import opened Calendar

  // ---------------------------------------------------------------------
  // WEEKDAYS and MONTHS
  // ---------------------------------------------------------------------

  /** `WEEKDAYS["fr"]`, indexed by `date.weekday()`. */
  const WeekdaysFr: seq<string> :=
    ["lundi", "mardi", "mercredi", "jeudi", "vendredi", "samedi", "dimanche"]

  /** `WEEKDAYS["en"]`. */
  const WeekdaysEn: seq<string> :=
    ["Monday", "Tuesday", "Wednesday", "Thursday", "Friday", "Saturday", "Sunday"]

  /** `MONTHS["fr"]`, indexed by `date.month - 1`. */
  const MonthsFr: seq<string> :=
    ["janvier", "f\U{00E9}vrier", "mars", "avril", "mai", "juin",
     "juillet", "ao\U{00FB}t", "septembre", "octobre", "novembre", "d\U{00E9}cembre"]

  /** `MONTHS["en"]`. */
  const MonthsEn: seq<string> :=
    ["January", "February", "March", "April", "May", "June",
     "July", "August", "September", "October", "November", "December"]

  /** No two entries of a table are the same. */
  predicate Distinct(names: seq<string>) {
    forall i, j :: 0 <= i < j < |names| ==> names[i] != names[j]
  }

  /** A name with no space in it. */
  predicate Spaceless(w: string) {
    Lacks(w, ' ')
  }

  predicate AllSpaceless(names: seq<string>) {
    forall i :: 0 <= i < |names| ==> Spaceless(names[i])
  }

  /** The tables have seven weekdays and twelve months, all distinct and
      none containing a space. */
  lemma TablesWellFormed()
    ensures |WeekdaysFr| == 7 && |WeekdaysEn| == 7 && |MonthsFr| == 12 && |MonthsEn| == 12
    ensures Distinct(MonthsFr) && Distinct(MonthsEn)
    ensures AllSpaceless(WeekdaysFr) && AllSpaceless(WeekdaysEn)
    ensures AllSpaceless(MonthsFr) && AllSpaceless(MonthsEn)
  {
    WeekdaysWellFormed();
    MonthsFrWellFormed();
    MonthsEnWellFormed();
  }

  lemma WeekdaysWellFormed()
    ensures |WeekdaysFr| == 7 && |WeekdaysEn| == 7
    ensures AllSpaceless(WeekdaysFr) && AllSpaceless(WeekdaysEn)
  {
    WeekdaysFrSpaceless();
    WeekdaysEnSpaceless();
  }

  lemma WeekdaysFrSpaceless()
    ensures |WeekdaysFr| == 7 && AllSpaceless(WeekdaysFr)
  {
  }

  lemma WeekdaysEnSpaceless()
    ensures |WeekdaysEn| == 7 && AllSpaceless(WeekdaysEn)
  {
  }

  lemma MonthsFrWellFormed()
    ensures |MonthsFr| == 12 && Distinct(MonthsFr) && AllSpaceless(MonthsFr)
  {
    MonthsFrDistinct();
    MonthsFrSpaceless();
  }

  lemma MonthsFrDistinct()
    ensures |MonthsFr| == 12 && Distinct(MonthsFr)
  {
  }

  lemma MonthsFrSpaceless()
    ensures AllSpaceless(MonthsFr)
  {
  }

  lemma MonthsEnWellFormed()
    ensures |MonthsEn| == 12 && Distinct(MonthsEn) && AllSpaceless(MonthsEn)
  {
    MonthsEnDistinct();
    MonthsEnSpaceless();
  }

  lemma MonthsEnDistinct()
    ensures |MonthsEn| == 12 && Distinct(MonthsEn)
  {
  }

  lemma MonthsEnSpaceless()
    ensures AllSpaceless(MonthsEn)
  {
  }

  // ---------------------------------------------------------------------
  // format_date_fr, format_date_en, FORMAT_DATE
  // ---------------------------------------------------------------------

  /** `format_date_fr`: "Lundi, 15 janvier 2024". The text has four
      space-separated fields: the capitalized weekday with a comma, the day,
      the month name and the year. */
  function FormatFr(d: Date): (r: string)
    requires d.Valid()
    ensures Split(r, " ")
      == [Capitalize(WeekdaysFr[Weekday(d)]) + ",", NatToString(d.day), MonthsFr[d.month - 1], NatToString(d.year)]
  {
    WeekdaysWellFormed();
    MonthsFrWellFormed();
    CapitalizeSpaceless(WeekdaysFr[Weekday(d)]);
    DigitsSpaceless(NatToString(d.day));
    DigitsSpaceless(NatToString(d.year));
    FrLayout(Capitalize(WeekdaysFr[Weekday(d)]), NatToString(d.day), MonthsFr[d.month - 1], NatToString(d.year));
    Capitalize(WeekdaysFr[Weekday(d)]) + ", " + NatToString(d.day) + " "
    + MonthsFr[d.month - 1] + " " + NatToString(d.year)
  }

  /** `format_date_en`: "Monday, January 15, 2024". The text has four
      space-separated fields: the weekday with a comma, the month name, the
      day with a comma and the year. */
  function FormatEn(d: Date): (r: string)
    requires d.Valid()
    ensures Split(r, " ")
      == [WeekdaysEn[Weekday(d)] + ",", MonthsEn[d.month - 1], NatToString(d.day) + ",", NatToString(d.year)]
  {
    WeekdaysWellFormed();
    MonthsEnWellFormed();
    DigitsSpaceless(NatToString(d.day));
    DigitsSpaceless(NatToString(d.year));
    EnLayout(WeekdaysEn[Weekday(d)], MonthsEn[d.month - 1], NatToString(d.day), NatToString(d.year));
    WeekdaysEn[Weekday(d)] + ", " + MonthsEn[d.month - 1] + " "
    + NatToString(d.day) + ", " + NatToString(d.year)
  }

  /** `FORMAT_DATE[part](date)`: the French and English formats, and the
      empty text for any other part (the `defaultdict` fallback). */
  function FormatDate(part: string, d: Date): (r: string)
    requires d.Valid()
    ensures part == "fr" ==> r != [] && ParseFr(r) == Some(d)
    ensures part == "en" ==> r != [] && ParseEn(r) == Some(d)
    ensures part != "fr" && part != "en" ==> r == ""
  {
    if part == "fr" then
      ParseFrFormatFr(d);
      FormatFr(d)
    else if part == "en" then
      ParseEnFormatEn(d);
      FormatEn(d)
    else ""
  }

  // ---------------------------------------------------------------------
  // Reading a formatted date back
  // ---------------------------------------------------------------------

  /** Position of `w` in a table, or None. */
  function IndexOf(names: seq<string>, w: string): (r: Option<nat>)
    ensures r.Some? ==> r.value < |names| && names[r.value] == w
    ensures r.None? ==> w !in names
  {
    if names == [] then None
    else if names[0] == w then Some(0)
    else
      match IndexOf(names[1..], w)
      case None => None
      case Some(i) => Some(i + 1)
  }

  lemma {:induction false} IndexOfDistinct(names: seq<string>, i: nat)
    requires Distinct(names) && i < |names|
    ensures IndexOf(names, names[i]) == Some(i)
  {
    match IndexOf(names, names[i])
    case None =>
    case Some(j) =>
  }

  /** Reads "Lundi, 15 janvier 2024" back: four space-separated fields, the
      first the capitalized weekday of the date followed by a comma. */
  function ParseFr(s: string): Option<Date> {
    var p := Split(s, " ");
    if |p| != 4 || !AllDigits(p[1]) || !AllDigits(p[3]) then None
    else
      match IndexOf(MonthsFr, p[2])
      case None => None
      case Some(i) =>
        var d := Date(ParseDigits(p[3]), i + 1, ParseDigits(p[1]));
        if d.Valid() && p[0] == Capitalize(WeekdaysFr[Weekday(d)]) + "," then Some(d) else None
  }

  /** Reads "Monday, January 15, 2024" back. */
  function ParseEn(s: string): Option<Date> {
    var p := Split(s, " ");
    if |p| != 4 || p[2] == [] || p[2][|p[2]| - 1] != ',' then None
    else
      var day := p[2][..|p[2]| - 1];
      if !AllDigits(day) || !AllDigits(p[3]) then None
      else
        match IndexOf(MonthsEn, p[1])
        case None => None
        case Some(i) =>
          var d := Date(ParseDigits(p[3]), i + 1, ParseDigits(day));
          if d.Valid() && p[0] == WeekdaysEn[Weekday(d)] + "," then Some(d) else None
  }

  lemma SpacelessFree(w: string)
    requires Spaceless(w)
    ensures Free(w, " ")
  {
    LacksFree(w, ' ');
  }

  lemma DigitsSpaceless(s: string)
    requires AllDigits(s)
    ensures Spaceless(s)
  {
  }

  lemma CapitalizeSpaceless(w: string)
    requires Spaceless(w)
    ensures Spaceless(Capitalize(w))
  {
    if w != [] {
      LowerSpaceless(w[1..]);
    }
  }

  lemma {:induction false} LowerSpaceless(w: string)
    requires Spaceless(w)
    ensures Spaceless(Lower(w))
    decreases |w|
  {
    if w != [] {
      LowerSpaceless(w[1..]);
      assert Spaceless(LowerChar(w[0]));
    }
  }

  lemma CommaSpace(x: string)
    ensures x + ", " == x + "," + " "
  {
    assert (x + ", ")[|x|] == ',';
    assert (x + ", ")[|x| + 1] == ' ';
  }

  lemma JoinFour(a: string, b: string, c: string, e: string)
    ensures JoinWith(" ", [a, b, c, e]) == a + " " + b + " " + c + " " + e
  {
    JoinCons(" ", c, [e]);
    assert [c, e] == [c] + [e];
    JoinCons(" ", b, [c, e]);
    assert [b, c, e] == [b] + [c, e];
    JoinCons(" ", a, [b, c, e]);
    assert [a, b, c, e] == [a] + [b, c, e];
  }

  /** A four-field text joined with single spaces splits back into its
      fields when none of them holds a space. */
  lemma SplitFour(a: string, b: string, c: string, e: string)
    requires Spaceless(a) && Spaceless(b) && Spaceless(c) && Spaceless(e)
    ensures Split(a + " " + b + " " + c + " " + e, " ") == [a, b, c, e]
  {
    var parts := [a, b, c, e];
    SpacelessFree(a);
    SpacelessFree(b);
    SpacelessFree(c);
    SpacelessFree(e);
    JoinFour(a, b, c, e);
    assert forall k :: 0 <= k < |parts| ==> Free(parts[k], " ");
    SplitJoin(parts, " ");
  }

  /** `ParseFr` inverts `format_date_fr`. */
  lemma ParseFrFormatFr(d: Date)
    requires d.Valid()
    ensures FormatFr(d) != [] && ParseFr(FormatFr(d)) == Some(d)
  {
    DayDigits(d);
    MonthsFrWellFormed();
    var p := Split(FormatFr(d), " ");
    IndexOfDistinct(MonthsFr, d.month - 1);
    assert IndexOf(MonthsFr, p[2]) == Some(d.month - 1);
    ParseNatToString(d.day);
    ParseNatToString(d.year);
    assert Date(ParseDigits(p[3]), d.month, ParseDigits(p[1])) == d;
  }

  /** `ParseEn` inverts `format_date_en`. */
  lemma ParseEnFormatEn(d: Date)
    requires d.Valid()
    ensures FormatEn(d) != [] && ParseEn(FormatEn(d)) == Some(d)
  {
    DayDigits(d);
    MonthsEnWellFormed();
    var day := NatToString(d.day);
    var p := Split(FormatEn(d), " ");
    assert p[2][..|p[2]| - 1] == day;
    IndexOfDistinct(MonthsEn, d.month - 1);
    assert IndexOf(MonthsEn, p[1]) == Some(d.month - 1);
    ParseNatToString(d.day);
    ParseNatToString(d.year);
    assert Date(ParseDigits(p[3]), d.month, ParseDigits(day)) == d;
  }

  /** Distinct dates are shown differently, in either language. */
  lemma FormatInjective(part: string, d1: Date, d2: Date)
    requires d1.Valid() && d2.Valid() && (part == "fr" || part == "en")
    ensures FormatDate(part, d1) == FormatDate(part, d2) <==> d1 == d2
  {
  }

  /** The day of the month is at most two digits, without a leading zero. */
  lemma DayDigits(d: Date)
    requires d.Valid()
    ensures 1 <= |NatToString(d.day)| <= 2 && NatToString(d.day)[0] != '0'
  {
    if d.day >= 10 {
      assert NatToString(d.day) == NatToString(d.day / 10) + [DigitChar(d.day % 10)];
    }
  }

  /** The French layout `w, d m y` is four space-separated fields, the
      first carrying the comma. */
  lemma FrLayout(w: string, day: string, m: string, y: string)
    requires Spaceless(w) && Spaceless(day) && Spaceless(m) && Spaceless(y)
    ensures Split(w + ", " + day + " " + m + " " + y, " ") == [w + ",", day, m, y]
  {
    CommaSpace(w);
    assert w + ", " + day + " " + m + " " + y == (w + ",") + " " + day + " " + m + " " + y;
    SplitFour(w + ",", day, m, y);
  }

  /** The English layout `w, m d, y` is four space-separated fields, the
      first and third carrying the commas. */
  lemma EnLayout(w: string, m: string, day: string, y: string)
    requires Spaceless(w) && Spaceless(m) && Spaceless(day) && Spaceless(y)
    ensures Split(w + ", " + m + " " + day + ", " + y, " ") == [w + ",", m, day + ",", y]
  {
    var head := w + ", " + m + " ";
    CommaSpace(head + day);
    assert head + day + "," == head + (day + ",");
    CommaSpace(w);
    assert head == (w + ",") + " " + m + " ";
    SplitFour(w + ",", m, day + ",", y);
  }

  lemma Example2024Numbers()
    ensures Weekday(Date(2024, 1, 15)) == 0
    ensures NatToString(15) == "15"
    ensures NatToString(2024) == "2024"
  {
    assert NatToString(20) == "20";
    assert NatToString(202) == "202";
  }

  /** 2024-01-15 was a Monday. */
  lemma FormatFrExample()
    ensures FormatDate("fr", Date(2024, 1, 15)) == "Lundi, 15 janvier 2024"
  {
    FormatFrMonday();
  }

  lemma FormatFrMonday()
    ensures FormatFr(Date(2024, 1, 15)) == "Lundi, 15 janvier 2024"
  {
    FrMondayFields();
    FrMondayText();
  }

  lemma FrMondayFields()
    ensures var d := Date(2024, 1, 15);
      Capitalize(WeekdaysFr[Weekday(d)]) == "Lundi" && NatToString(d.day) == "15"
      && MonthsFr[d.month - 1] == "janvier" && NatToString(d.year) == "2024"
  {
    Example2024Numbers();
    CapitalizeLundi();
  }

  lemma FrMondayText()
    ensures "Lundi" + ", " + "15" + " " + "janvier" + " " + "2024" == "Lundi, 15 janvier 2024"
  {
  }

  lemma CapitalizeLundi()
    ensures Capitalize("lundi") == "Lundi"
  {
    var r := Capitalize("lundi");
    assert forall k :: 1 <= k < 5 ==> "lundi"[k] != '\U{0130}';
    assert |r| == 5 && r[0] == 'L';
    assert r[1] == 'u' && r[2] == 'n' && r[3] == 'd' && r[4] == 'i';
  }

  lemma FormatEnExample()
    ensures FormatDate("en", Date(2024, 1, 15)) == "Monday, January 15, 2024"
    ensures FormatDate("suffix", Date(2024, 1, 15)) == ""
  {
    FormatEnMonday();
  }

  lemma FormatEnMonday()
    ensures FormatEn(Date(2024, 1, 15)) == "Monday, January 15, 2024"
  {
    Example2024Numbers();
  }
}
