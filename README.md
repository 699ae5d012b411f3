# A model of post.py, the blog-post assembler of hamelin.github.io

`post.py` turns one Markdown text into one bilingual blog post. The text may
open with a date (`YYYY-M-D`); the rest is cut at the separator `---\n` into
a French section, an English section and a suffix. Each section is rendered
to an HTML tree. The post identifier is the date as `YYYYMMDD`, followed by
the words of the first English heading, small letters and digits only,
joined by hyphens. In each section the first `h1` (or, failing that, `h2`)
gets a "Λ" self-link to the identifier and a line with the date written in
that section's language. The article then holds an anchor carrying the
identifier and a "polyglot" div. The polyglot div is meant to contain the
French part, the English part (class `en noshow`) and the suffix when it is
not blank. As written, the div stays empty and those parts follow it as its
siblings (see Findings).

The project has one module per concern:

- `Wrappers` (wrappers.dfy): `Option` and `Result`.
- `Strings` (strings.dfy): the Python string operations the script uses, defined
  character by character and specified by lemmas:
  - `str.strip`, `str.find`, `str.split(sep)`, `sep.join`;
  - `str.split()` without a separator;
  - `int`/`str` on natural numbers, and the zero-padded `strftime` fields;
  - `lower` and `capitalize`.
- `Calendar` (calendar.dfy): `datetime.date` validity and `weekday()`. The
  closed forms CPython uses are proved equal to a day-by-day count.
- `DateExtractor` (date_extractor.dfy): `parse_date`.
- `DateFormatter` (date_formatter.dfy): the weekday and month tables,
  `format_date_fr`, `format_date_en` and `FORMAT_DATE`. Each format is
  paired with a decoder that reads the date back.
- `Html` (html_tree.dfy): the parsed document as a tree, together with:
  - `soup.h1` / `soup.h2`, a preorder search;
  - `get_text()`;
  - replacing one node in place;
  - `str(soup)`.
- `PostAssembler` (post_assembler.dfy): the `Post` class, which covers:
  - the section split;
  - `get_id`;
  - `part`;
  - `assemble`.

A `Post` never changes once built: `part` works on a copy of a section's
tree. So a post is a value, and every operation is a function. The in-place
edits of `part` and the appends of `assemble` become functions that build
the resulting tree. Each way the source can fail becomes an error value:

- `datetime.date` refusing the numbers gives `DateError`.
- A renderer failure gives `RenderFailed`.
- An English section without a heading gives `MissingHeading`. In the
  source this is `None.get_text()` raising.

### Behaviours of the code worth knowing

The model keeps each of these:

- Without a date prefix, `parse_date` returns the text exactly as given, not
  stripped (post.py:71-74). See `DateExtractor.NoPrefixMeansToday`.
- The split happens at every `---\n`, including one that ends a line with
  other text before it (post.py:125). See
  `PostAssembler.SectionsSplitMidLine`.
- `part("suffix")` decorates the suffix's heading too. Its date line is then
  empty, because `FORMAT_DATE` defaults to the empty text (post.py:144-153).
- The suffix is placed as its own nodes, not inside a container of its own
  (post.py:164-165, 170).
- The French and English parts end up beside the polyglot container, not
  inside it (see Findings).

`parse_date` slices the remainder of the text at an offset counted in the
stripped text (see Findings). `PostAssembler.NewPost` builds on the
corrected `DateExtractor.ParseDate`; `PostAssembler.NewPostAsWritten` builds
on `DateExtractor.ParseDateAsWritten`. The script strips the text before it
builds the post (post.py:57), and on such a text the two posts are the same
(`PostAssembler.NewPostAgreesOnTrimmed`).

## Model

| member | source | states |
|---|---|---|
| Strings.Strip | post.py:67 | the result has no whitespace at either end and is no longer than the input |
| Strings.StripSlice | post.py:67 | `strip` removes only whitespace, from the two ends: the result is a contiguous slice, and everything before and after it is whitespace |
| Strings.StripIdempotent | post.py:70 | stripping twice is stripping once |
| Strings.FindSpec | post.py:125 | `find` returns the first occurrence of the pattern, and nothing only when the pattern does not occur |
| Strings.SplitSpec | post.py:125 | no piece of `split(sep)` contains the separator; a text without it is a single piece |
| Strings.JoinSplit | post.py:125 | joining the pieces of `split(sep)` with `sep` gives back the text |
| Strings.SplitJoin | post.py:125 | splitting the join of separator-free pieces gives back the pieces, when the separator's last character occurs only at its end |
| Strings.WordsSpec | post.py:138 | every word of `str.split()` is non-empty and holds no whitespace |
| Strings.WordsConcat | post.py:138 | the words of `str.split()`, concatenated, are the text's non-whitespace characters in order |
| Strings.WordsJoin | post.py:138 | words joined by single spaces split back into the same words: `str.split()` cuts exactly between words |
| Strings.WordsAppend | post.py:138 | a run of whitespace is one separator: two texts that meet at whitespace (or where either is empty) split into the words of the first followed by the words of the second |
| Strings.WordsOfSlugText | post.py:133-138 | a text of small ASCII letters, digits and spaces splits into words of small letters and digits only |
| Strings.NoWordsInBlank | post.py:138 | an all-whitespace text has no words |
| Strings.Lower | post.py:136 | `lower()` leaves no ASCII capital and never shortens the text; without U+0130 it keeps the length and lower-cases each character in place (an ASCII capital becomes its small letter, U+212A becomes "k", every other character stays) |
| Strings.Capitalize | post.py:95 | `capitalize()` keeps an empty name empty; a small ASCII first letter becomes its own capital and any other first character stays; every later character is lower-cased in place as by `lower()` |
| Strings.ParseNatToString | post.py:96 | `int(str(n)) == n` for every natural number |
| Strings.Pad2 | post.py:132 | the `%m`/`%d` field is two digits that read back as the number |
| Strings.Pad4 | post.py:132 | the `%Y` field is four digits that read back as the year |
| Calendar.DaysInMonth | post.py:69 | every month has 28 to 31 days |
| Calendar.Weekday | post.py:95 | `weekday()` is between 0 and 6 |
| Calendar.DaysBeforeYearCounts | post.py:95 | CPython's closed form for the days before a year equals the year-by-year sum of year lengths |
| Calendar.DaysBeforeMonthCounts | post.py:95 | the cumulative month table, with the leap-day correction, equals the month-by-month sum |
| Calendar.OrdinalCountsDays | post.py:95 | the ordinal of a date is the days of the earlier years, plus the days of the earlier months, plus the day |
| Calendar.NextDayValid | post.py:69 | the day after a valid date is valid, except after 9999-12-31 |
| Calendar.OrdinalNextDay | post.py:102 | consecutive days have consecutive ordinals, across month and year ends |
| Calendar.WeekdayFirstDay | post.py:95 | 0001-01-01 is a Monday |
| Calendar.WeekdayNextDay | post.py:102 | each day advances the weekday by one, modulo 7 |
| DateExtractor.MakeDate | post.py:69 | `datetime.date(y, m, d)` succeeds exactly on a valid date and then holds those numbers; the error names the first failing field, checked in the order year, month, day |
| DateExtractor.MatchDate | post.py:65-68 | a match is four digits, then one or two, then one or two, joined by hyphens, and is a prefix of the input |
| DateExtractor.MatchDateSound | post.py:65-68 | the matched prefix has the shape of a date and no longer prefix has: the groups are greedy |
| DateExtractor.MatchDateComplete | post.py:65-68 | when nothing matches, no prefix of the text has the shape of a date |
| DateExtractor.MatchDateOfToken | post.py:65-68 | a text that starts with a date token (not followed by a further day digit) matches with exactly those groups |
| DateExtractor.ParseDateAsWritten | post.py:64-74 | errors exactly when a match's numbers are not a date; the fallback is used exactly when nothing matches, and then the date is `today` and the text unchanged; after a match the date is the one the matched numbers give and the remaining text is trimmed |
| DateExtractor.ParseDate | post.py:64-74 | errors exactly when a match's numbers are not a date; the fallback date is used exactly when nothing matches, and then the date is `today` and the text unchanged; after a match the date is the one the matched numbers give, the remaining text is trimmed, and the match is the prefix of the stripped text |
| DateExtractor.DatePrefixParsed | post.py:64-70 | a leading valid date gives that date and the stripped text after the token, as written and corrected alike |
| DateExtractor.InvalidDateRejected | post.py:64-69 | a leading date-shaped token whose numbers are not a date makes parsing fail with the reason `datetime.date` gives |
| DateExtractor.NoPrefixMeansToday | post.py:71-74 | without a date-shaped prefix the date is `today` and the text is returned unchanged |
| DateExtractor.ParseDateIgnoresIndent | post.py:67-70 | once the stripped text starts with a date, whitespace put before the text changes nothing |
| DateExtractor.IndentedDatePrefixParsed | post.py:64-70 | a valid date token after a run of whitespace gives that date and the stripped text after the token |
| DateExtractor.ParseDateAgreesOnTrimmed | post.py:67-70 | on a text without leading whitespace, the as-written slice and the corrected one give the same result |
| DateExtractor.ParseDateAsWrittenMisaligned | post.py:70 | on " 2024-1-15 hello" the as-written remainder is "5 hello"; the corrected one is "hello" |
| DateFormatter.TablesWellFormed | post.py:77-90 | seven weekdays and twelve months per language; month names are distinct; no name holds a space |
| DateFormatter.FormatDate | post.py:107-113 | "fr" and "en" give non-empty texts that decode back to the date; any other part gives "" |
| DateFormatter.ParseFrFormatFr | post.py:93-97 | the French date decodes back to the date it shows |
| DateFormatter.ParseEnFormatEn | post.py:100-104 | the English date decodes back to the date it shows |
| DateFormatter.FormatFr | post.py:93-97 | the French date has four space-separated fields: capitalized weekday and comma, day, month name, year (`ParseFrFormatFr` reads the date back from them) |
| DateFormatter.FormatEn | post.py:100-104 | the English date has four space-separated fields: weekday and comma, month name, day and comma, year (`ParseEnFormatEn` reads the date back from them) |
| DateFormatter.DayDigits | post.py:96 | the day is written with one or two digits and no leading zero |
| DateFormatter.FormatInjective | post.py:107-113 | in either language, two dates are written the same exactly when they are the same date |
| DateFormatter.FormatFrExample | post.py:93-97 | 2024-01-15 is written "Lundi, 15 janvier 2024" |
| DateFormatter.FormatEnExample | post.py:100-113 | 2024-01-15 is written "Monday, January 15, 2024"; the "suffix" part gets "" |
| Html.FirstPathSpec | post.py:144 | the preorder search finds nothing exactly when no element has the name, and otherwise the first one |
| Html.FirstPathValid | post.py:144 | the path found leads to an element of the searched name |
| Html.FirstPathUnique | post.py:144 | there is only one first element of a name |
| Html.ReplaceAtSpec | post.py:149-150 | after a replacement the path leads to the new node, and the other top-level nodes are untouched |
| Html.ReplaceAtRestore | post.py:149-150 | putting the old node back restores the tree: a replacement changes that node and nothing else |
| Html.TextOfAppend | post.py:136 | the text of two forests side by side is the text of the first, then the text of the second |
| Html.SerializeEmpty | post.py:164 | a forest serializes to "" exactly when it holds only empty text nodes |
| PostAssembler.SplitSections | post.py:125 | the split always yields three sections |
| PostAssembler.SectionsSeparatorFree | post.py:125 | no section contains the separator |
| PostAssembler.SectionsWithoutSeparator | post.py:125 | a body without the separator is all French; the English section and the suffix are empty |
| PostAssembler.SectionsRoundTrip | post.py:125 | with at most two separators the pieces are the first sections, the rest are empty, and joining the pieces gives back the body |
| PostAssembler.SectionsDropTail | post.py:125 | with three or more separators the text after the third is dropped: the body is the joined sections, a separator, and that text |
| PostAssembler.SectionsOfJoin | post.py:125 | three separator-free sections joined by the separator split back into the same three |
| PostAssembler.SectionsSplitMidLine | post.py:125 | "a---\nb" splits into "a", "b" and "" |
| PostAssembler.NewPost | post.py:118-128 | a post fails exactly when the date fails or one of the three renders fails; otherwise it holds the parsed date and the renders of the three sections, in order |
| PostAssembler.NewPostAsWritten | post.py:118-128 | built on the as-written date parse: a date error gives a post error, and a post holds the parsed date |
| PostAssembler.NewPostAgreesOnTrimmed | post.py:118-128 | on a text without leading whitespace (the script strips its input, post.py:57), the post built on the as-written parse is the post built on the corrected one |
| PostAssembler.Heading | post.py:144 | `soup.h1 or soup.h2` is absent exactly when the tree has neither; otherwise it is the first h1, or the first h2 when there is no h1 |
| PostAssembler.Timestamp | post.py:132 | `strftime("%Y%m%d")` is eight digits that read back as year, month and day |
| PostAssembler.Sanitize | post.py:133-135 | the substitution keeps the length and leaves only small ASCII letters, digits and spaces |
| PostAssembler.SanitizeKeeps | post.py:133-135 | small letters and digits stay in place; every other character becomes a space |
| PostAssembler.KeepNonEmptyOfWords | post.py:138 | the `if w` filter removes nothing from the words of `split()` |
| PostAssembler.TitleWordsShape | post.py:133-138 | the heading's words are non-empty and made of small letters and digits |
| PostAssembler.TitleWordsExample | post.py:133-138 | the heading "Hello, World!" gives the words "hello" and "world" |
| PostAssembler.GetId | post.py:130-138 | `get_id` fails exactly when the English section has neither an h1 nor an h2 |
| PostAssembler.GetIdShape | post.py:130-138 | the identifier starts with the eight-digit timestamp, then a hyphen unless nothing follows; it holds only `[a-z0-9-]`; it splits at hyphens into the timestamp and the heading words, none empty |
| PostAssembler.GetIdTimestampOnly | post.py:133-138 | a heading with nothing that lower-cases to an ASCII letter or digit gives the bare timestamp |
| PostAssembler.GetIdInjective | post.py:130-138 | on one date, two posts get the same identifier exactly when their headings have the same words |
| PostAssembler.Part | post.py:140-154 | an unknown key gives an empty tree; the part fails exactly when the section has an h1 or h2 and `get_id` fails, and the error is the missing heading |
| PostAssembler.DecoratedText | post.py:145-153 | the text of the "post-meta" div is the heading's text, then "Λ", then the date |
| PostAssembler.PartUnknownKey | post.py:141-142 | a key other than "fr", "en" and "suffix" gives an empty tree |
| PostAssembler.PartWithoutHeading | post.py:143-154 | a section without an h1 or h2 is returned unchanged |
| PostAssembler.PartWithHeading | post.py:144-153 | with a heading, the part fails exactly when `get_id` does; otherwise the heading's place holds a "post-meta" div with the heading (its self-link to "#" + identifier appended) and a div with the localized date, and nothing else changes |
| PostAssembler.PartDecoratesOnlyHeadings | post.py:143-154 | a section is changed exactly when it has an h1 or h2 |
| PostAssembler.PartsSucceed | post.py:144-147 | once the English section has a heading, all three parts succeed |
| PostAssembler.CollectPartsSpec | post.py:158-167 | the calls `assemble` makes fail, for the missing heading, exactly when the English section has no h1 or h2; otherwise they give the identifier and the three parts |
| PostAssembler.Assemble | post.py:156-171 | a failure is the missing heading; a result is one "article" element |
| PostAssembler.AssembleAsWritten | post.py:156-171 | a failure is the missing heading; a result is one "article" element |
| PostAssembler.AssembleFails | post.py:156-171 | assembling fails exactly when the English section has no h1 or h2, with the same verdict as written and corrected |
| PostAssembler.AssembleLayout | post.py:156-171 | when the English section has an h1 or h2, assembling succeeds and gives one article: first the anchor with the identifier, then the polyglot div holding the French part (class "fr"), the English part (class "en noshow") and the suffix's nodes unless the suffix is blank |
| PostAssembler.AssembleAsWrittenPolyglotEmpty | post.py:156-171 | when the English section has an h1 or h2, assembling as written succeeds and gives one article: the anchor with the identifier, the empty polyglot div, then as its siblings the French part (class "fr"), the English part (class "en noshow") and the suffix's nodes unless the suffix is blank |

## Left out

- Markdown rendering and code highlighting (post.py:35-44) are not part of
  this model. `NewPost` takes the renderer, followed by HTML parsing, as a
  parameter `render` that may fail.
- The HTML parser, `copy`, `new_tag`, `wrap` and `prettify` are left out.
  Trees are built directly, and `Serialize` does not escape text or
  attribute values. It is used only to decide whether the suffix is blank,
  and that decision does not depend on escaping.
- Reading the post from a file, the backup file or standard input is left
  out (post.py:26-61, 174-185, 197-211), as are inserting the post into
  `index.html`, the preview HTTP server and process exit. These are I/O and
  process control.
- The "Can't parse post date" warning (post.py:72) is not printed. It is
  modelled by the `usedToday` flag of `Extracted`.
- `dt.date.today()` (post.py:73) is the parameter `today`.
- `Strings.IsSpace` follows `str.isspace()`. The ASCII whitespace and the
  Unicode separators are listed one by one.
- `DateExtractor.MatchDate` matches ASCII digits only. Python's `\d` also
  matches other Unicode decimal digits, and `int` reads them.
- `Strings.LowerChar` lower-cases ASCII capitals and the two characters whose
  lower-case form contains an ASCII letter (U+212A and U+0130). Every other
  character is kept as it is. This is exact for what `get_id` keeps after
  the substitution, which retains only `[a-z0-9]`, but not for `lower()` in
  general.
- `Strings.Capitalize` upper-cases ASCII letters only. It is applied only to
  the fixed weekday names.
- PostAssembler.NewPost takes the date from the corrected parse. On a text
  with leading whitespace it differs from `Post(markdown)` as written; that
  behaviour is `PostAssembler.NewPostAsWritten` (see Findings).
- PostAssembler.Timestamp always writes the year as four digits. The C
  library's `strftime` on some platforms writes years below 1000 with fewer
  digits.
- PostAssembler.Part assumes that `Tag.append` returns the element it
  appends, as in BeautifulSoup 4.13 and later. Earlier versions return
  `None`, and post.py:153 would then fail.
- DateFormatter.FormatDate does not model a side effect of the
  `defaultdict` (post.py:107-113): a lookup with a key other than "fr" and
  "en" inserts that key. Later lookups give the same result either way.

## Findings

| source | as written | input that shows it | evidently intended | confidence | as-written member | corrected member |
|---|---|---|---|---|---|---|
| post.py:70 | the date is matched on `markdown.strip()`, but the remainder is sliced from the unstripped `markdown` at the match's end offset | " 2024-1-15 hello" leaves "5 hello" instead of "hello" | slice the stripped text that was matched | medium, not executed; the script's own caller strips the text first (post.py:57), so only other callers are affected | DateExtractor.ParseDateAsWrittenMisaligned | DateExtractor.ParseDate |
| post.py:157-163 | `parts` is a document whose only node is the polyglot div, and `parts.append` adds to the document, so the French and English divs become siblings of an empty polyglot div | any post whose English section has an h1 or h2 | the sections inside the polyglot div | medium, not executed | PostAssembler.AssembleAsWrittenPolyglotEmpty | PostAssembler.AssembleLayout |
