/**
  The `Post` class of post.py (lines 116-171): the dated text is split into
  a French section, an English section and a suffix, each rendered to a
  tree; `get_id` derives the post identifier from the date and the first
  English heading; `part` decorates a section's heading with a self-link and
  the localized date; `assemble` lays the sections out under an anchor
  carrying the identifier.

  A `Post` never changes after construction (`part` works on a copy), so it
  is a value here. Markdown rendering is a parameter of the constructor.
*/
module PostAssembler {
  import opened Wrappers
  import opened Strings
  import opened Calendar
  import opened DateExtractor
  import opened DateFormatter
  import opened Html

  // ---------------------------------------------------------------------
  // The three sections (post.py:125)
  // ---------------------------------------------------------------------

  /** The text that separates the sections. */
  const Separator: string := "---\n"

  /** `(markdown.split("---\n") + ["", ""])[:3]`. */
  function SplitSections(body: string): (r: seq<string>)
    ensures |r| == 3
  {
    (Split(body, Separator) + ["", ""])[..3]
  }

  /** The separator's last character, the newline, occurs only at its end,
      which is what splitting a join back into its pieces needs. */
  lemma SeparatorLastCharUnique()
    ensures LastCharUnique(Separator)
  {
  }

  lemma EmptyIsFree(pat: string)
    requires |pat| > 0
    ensures Free("", pat)
  {
  }

  /** No section contains the separator. */
  lemma SectionsSeparatorFree(body: string)
    ensures forall k :: 0 <= k < 3 ==> Free(SplitSections(body)[k], Separator)
  {
    SplitSpec(body, Separator);
    EmptyIsFree(Separator);
    var pieces := Split(body, Separator);
    var r := SplitSections(body);
    forall k | 0 <= k < 3 ensures Free(r[k], Separator) {
      if k < |pieces| {
        assert r[k] == pieces[k];
      } else {
        assert r[k] == "";
      }
    }
  }

  /** A body without the separator is all French: the other two sections
      are empty. */
  lemma SectionsWithoutSeparator(body: string)
    requires Free(body, Separator)
    ensures SplitSections(body) == [body, "", ""]
  {
    SplitSpec(body, Separator);
  }

  /** With at most two separators nothing is lost: the pieces are the first
      sections, the remaining sections are empty, and joining the pieces
      with the separator gives back the body. */
  lemma SectionsRoundTrip(body: string)
    requires |Split(body, Separator)| <= 3
    ensures var n := |Split(body, Separator)|;
      SplitSections(body)[..n] == Split(body, Separator)
      && (forall k :: n <= k < 3 ==> SplitSections(body)[k] == "")
      && JoinWith(Separator, SplitSections(body)[..n]) == body
  {
    JoinSplit(body, Separator);
  }

  /** With three separators or more, the text after the third one is
      dropped: the body is the join of the sections, the separator and that
      dropped text. */
  lemma SectionsDropTail(body: string)
    requires |Split(body, Separator)| > 3
    ensures var pieces := Split(body, Separator);
      SplitSections(body) == pieces[..3]
      && body == JoinWith(Separator, SplitSections(body)) + Separator + JoinWith(Separator, pieces[3..])
  {
    var pieces := Split(body, Separator);
    JoinSplit(body, Separator);
    JoinAppend(Separator, pieces[..3], pieces[3..]);
    assert pieces[..3] + pieces[3..] == pieces;
  }

  /** Three sections without the separator, joined by it, split back into
      the same three sections. */
  lemma SectionsOfJoin(fr: string, en: string, suffix: string)
    requires Free(fr, Separator) && Free(en, Separator) && Free(suffix, Separator)
    ensures SplitSections(fr + Separator + en + Separator + suffix) == [fr, en, suffix]
  {
    var parts := [fr, en, suffix];
    JoinCons(Separator, en, [suffix]);
    assert [en, suffix] == [en] + [suffix];
    JoinCons(Separator, fr, [en, suffix]);
    assert parts == [fr] + [en, suffix];
    assert JoinWith(Separator, parts) == fr + Separator + en + Separator + suffix;
    assert forall k :: 0 <= k < 3 ==> Free(parts[k], Separator);
    SeparatorLastCharUnique();
    SplitJoin(parts, Separator);
    assert (parts + ["", ""])[..3] == parts;
  }

  /** The separator splits wherever it occurs, also at the end of a line
      that has other text before it: "a---\nb" has the sections "a", "b"
      and "". */
  lemma SectionsSplitMidLine()
    ensures SplitSections("a---\nb") == ["a", "b", ""]
  {
    var parts := ["a", "b"];
    assert JoinWith(Separator, parts) == "a---\nb" by {
      assert parts[1..] == ["b"];
    }
    assert forall k :: 0 <= k < 2 ==> Free(parts[k], Separator);
    SplitJoin(parts, Separator);
  }

  // ---------------------------------------------------------------------
  // Post.__init__ (post.py:118-128)
  // ---------------------------------------------------------------------

  /** Why building or laying out a post fails: a date-shaped prefix that
      is not a date, a section the renderer refuses (an unknown code-block
      language), or an English section without a heading to name the post
      after. */
  datatype PostError = BadDate(reason: DateError) | RenderFailed(message: string) | MissingHeading

  /** A post: its date and the rendered tree of each section. */
  datatype Post = Post(date: Date, fr: Forest, en: Forest, suffix: Forest)

  /** `self._soups`, looked up by key. */
  function Soup(post: Post, key: string): Option<Forest> {
    if key == "fr" then Some(post.fr)
    else if key == "en" then Some(post.en)
    else if key == "suffix" then Some(post.suffix)
    else None
  }

  /** `Post(markdown)`: the date and the text after it, then the three
      sections rendered in order. `render` stands for Markdown rendering
      followed by HTML parsing. */
  function NewPost(markdown: string, today: Date, render: string -> Result<Forest, string>): (r: Result<Post, PostError>)
    requires today.Valid()
    ensures ParseDate(markdown, today).Err? ==> r == Err(BadDate(ParseDate(markdown, today).error))
    ensures r.Ok? ==> ParseDate(markdown, today).Ok? && r.value.date == ParseDate(markdown, today).value.date
    ensures r.Ok? ==> r.value.date.Valid()
    ensures r.Ok? ==> var s := SplitSections(ParseDate(markdown, today).value.text);
      render(s[0]) == Ok(r.value.fr) && render(s[1]) == Ok(r.value.en) && render(s[2]) == Ok(r.value.suffix)
    ensures ParseDate(markdown, today).Ok? ==> var s := SplitSections(ParseDate(markdown, today).value.text);
      (r.Ok? <==> render(s[0]).Ok? && render(s[1]).Ok? && render(s[2]).Ok?)
  {
    Build(ParseDate(markdown, today), render)
  }

  /** `Post(markdown)` as written, on the as-written `parse_date`. */
  function NewPostAsWritten(markdown: string, today: Date, render: string -> Result<Forest, string>): (r: Result<Post, PostError>)
    ensures ParseDateAsWritten(markdown, today).Err? ==> r == Err(BadDate(ParseDateAsWritten(markdown, today).error))
    ensures r.Ok? ==>
      ParseDateAsWritten(markdown, today).Ok? && r.value.date == ParseDateAsWritten(markdown, today).value.date
  {
    Build(ParseDateAsWritten(markdown, today), render)
  }

  /** The sections of the text after the date, rendered in order; the first
      failure stops it. */
  function Build(parsed: Result<Extracted, DateError>, render: string -> Result<Forest, string>): Result<Post, PostError> {
    match parsed
    case Err(e) => Err(BadDate(e))
    case Ok(x) =>
      var s := SplitSections(x.text);
      match render(s[0])
      case Err(m) => Err(RenderFailed(m))
      case Ok(fr) =>
        match render(s[1])
        case Err(m) => Err(RenderFailed(m))
        case Ok(en) =>
          match render(s[2])
          case Err(m) => Err(RenderFailed(m))
          case Ok(suffix) => Ok(Post(x.date, fr, en, suffix))
  }

  /** The text handed to `Post` is stripped first (post.py:57); on such a
      text the post built on the as-written `parse_date` is the post built
      here. */
  lemma NewPostAgreesOnTrimmed(markdown: string, today: Date, render: string -> Result<Forest, string>)
    requires today.Valid()
    requires markdown == [] || !IsSpace(markdown[0])
    ensures NewPostAsWritten(markdown, today, render) == NewPost(markdown, today, render)
  {
    ParseDateAgreesOnTrimmed(markdown, today);
  }

  // ---------------------------------------------------------------------
  // soup.h1 or soup.h2
  // ---------------------------------------------------------------------

  /** `soup.h1 or soup.h2`: the first h1 of the section, or else its
      first h2. */
  function Heading(soup: Forest): (r: Option<Path>)
    ensures r.None? <==> !HasTag(soup, "h1") && !HasTag(soup, "h2")
    ensures r.Some? ==>
      (ValidPath(soup, r.value) && At(soup, r.value).Element?
       && (At(soup, r.value).name == "h1" || At(soup, r.value).name == "h2"))
    ensures r.Some? && HasTag(soup, "h1") ==> IsFirstPath(soup, "h1", r.value)
    ensures r.Some? && !HasTag(soup, "h1") ==> IsFirstPath(soup, "h2", r.value)
  {
    FirstPathSpec(soup, "h1");
    FirstPathSpec(soup, "h2");
    match FirstPath(soup, "h1")
    case Some(p) =>
      FirstPathValid(soup, "h1", p);
      Some(p)
    case None =>
      match FirstPath(soup, "h2")
      case Some(p) =>
        FirstPathValid(soup, "h2", p);
        Some(p)
      case None => None
  }

  // ---------------------------------------------------------------------
  // Post.get_id (post.py:130-138)
  // ---------------------------------------------------------------------

  /** `date.strftime("%Y%m%d")`. */
  function Timestamp(d: Date): (ts: string)
    requires d.Valid()
    ensures |ts| == 8 && AllDigits(ts)
    ensures ParseDigits(ts[..4]) == d.year && ParseDigits(ts[4..6]) == d.month
      && ParseDigits(ts[6..]) == d.day
  {
    var y, m, dd := Pad4(d.year), Pad2(d.month), Pad2(d.day);
    var ts := y + m + dd;
    assert ts[..4] == y && ts[4..6] == m && ts[6..] == dd;
    ts
  }

  /** `re.sub(r"[^a-z0-9]", " ", s)`: every character other than a small
      ASCII letter or an ASCII digit becomes a space. */
  function Sanitize(s: string): (r: string)
    ensures |r| == |s| && IsSlugText(r)
  {
    if s == [] then []
    else [if IsLowerAlnum(s[0]) then s[0] else ' '] + Sanitize(s[1..])
  }

  /** `Sanitize` keeps the small letters and digits where they are. */
  lemma {:induction false} SanitizeKeeps(s: string, k: nat)
    requires k < |s|
    ensures IsLowerAlnum(s[k]) ==> Sanitize(s)[k] == s[k]
    ensures !IsLowerAlnum(s[k]) ==> Sanitize(s)[k] == ' '
    decreases k
  {
    if k > 0 {
      SanitizeKeeps(s[1..], k - 1);
    }
  }

  /** `[w for w in ws if w]`. */
  function KeepNonEmpty(ws: seq<string>): seq<string> {
    if ws == [] then []
    else (if ws[0] != [] then [ws[0]] else []) + KeepNonEmpty(ws[1..])
  }

  /** The filter in `get_id` never removes anything: `str.split()` gives no
      empty word. */
  lemma {:induction false} KeepNonEmptyOfWords(ws: seq<string>)
    requires forall k :: 0 <= k < |ws| ==> IsWord(ws[k])
    ensures KeepNonEmpty(ws) == ws
    decreases |ws|
  {
    if ws != [] {
      KeepNonEmptyOfWords(ws[1..]);
      assert ws == [ws[0]] + ws[1..];
    }
  }

  /** The words of a heading text that make up the identifier. */
  function TitleWords(title: string): seq<string> {
    KeepNonEmpty(Words(Sanitize(Lower(title))))
  }

  /** The heading "Hello, World!" gives the words "hello" and "world": the
      comma and the exclamation mark become spaces, and the double space and
      the trailing space separate nothing extra. The texts in this lemma and
      its helpers are parameters fixed by `requires`, because the verifier
      unfolds recursive functions on a literal string all the way down, which
      is far slower than the step-by-step proof. */
  lemma TitleWordsExample(title: string)
    requires title == "Hello, World!"
    ensures TitleWords(title) == ["hello", "world"]
  {
    var l, m, ws := "hello, world!", "hello  world ", ["hello", "world"];
    LowerExample(title, l);
    SanitizeExample(l, m);
    WordsExample(m, ws);
    TitleWordsOfWords(title, l, m, ws);
  }

  /** A heading that lower-cases to `l`, which sanitizes to `m`, whose words
      are `ws`, gives the words `ws`. */
  lemma TitleWordsOfWords(title: string, l: string, m: string, ws: seq<string>)
    requires Lower(title) == l && Sanitize(l) == m && Words(m) == ws
    requires forall k :: 0 <= k < |ws| ==> IsWord(ws[k])
    ensures TitleWords(title) == ws
  {
    KeepNonEmptyOfWords(ws);
  }

  lemma LowerExample(t: string, l: string)
    requires t == "Hello, World!" && l == "hello, world!"
    ensures Lower(t) == l
  {
    assert forall k :: 0 <= k < |t| ==> t[k] != '\U{0130}';
    assert forall k :: 0 <= k < |t| ==> LowerOne(t[k]) == l[k];
  }

  lemma SanitizeExample(l: string, m: string)
    requires l == "hello, world!" && m == "hello  world "
    ensures Sanitize(l) == m
  {
    forall k | 0 <= k < |l| ensures Sanitize(l)[k] == m[k] {
      SanitizeKeeps(l, k);
    }
  }

  lemma WordsExample(m: string, ws: seq<string>)
    requires m == "hello  world " && ws == ["hello", "world"]
    ensures Words(m) == ws
    ensures forall k :: 0 <= k < |ws| ==> IsWord(ws[k])
  {
    var hello, spaces, world, space := "hello", "  ", "world", " ";
    assert IsWord(hello) && IsWord(world);
    assert m == hello + (spaces + (world + space));
    WordsAroundSpaces(hello, spaces, world, space);
  }

  /** A word, a run of whitespace, a word and whitespace split into the two
      words. */
  lemma WordsAroundSpaces(v: string, gap: string, w: string, tail: string)
    requires IsWord(v) && IsWord(w) && gap != []
    requires forall k :: 0 <= k < |gap| ==> IsSpace(gap[k])
    requires forall k :: 0 <= k < |tail| ==> IsSpace(tail[k])
    ensures Words(v + (gap + (w + tail))) == [v, w]
  {
    WordsOfWord(v);
    WordsOfWord(w);
    NoWordsInBlank(gap);
    NoWordsInBlank(tail);
    WordsAppend(w, tail);
    WordsAppend(gap, w + tail);
    assert (gap + (w + tail))[0] == gap[0];
    WordsAppend(v, gap + (w + tail));
  }

  /** The heading text `get_id` reads, when the English section has one. */
  function HeadingText(soup: Forest): Option<string> {
    match Heading(soup)
    case None => None
    case Some(p) => Some(NodeText(At(soup, p)))
  }

  /** `post.get_id()`: the timestamp, then the words of the English heading,
      joined by hyphens. Without an h1 or h2 in the English section the
      source fails (`None.get_text()`). */
  function GetId(post: Post): (r: Result<string, PostError>)
    requires post.date.Valid()
    ensures r.Err? <==> !HasTag(post.en, "h1") && !HasTag(post.en, "h2")
    ensures r.Err? ==> r.error == MissingHeading
  {
    match HeadingText(post.en)
    case None => Err(MissingHeading)
    case Some(title) => Ok(JoinWith("-", [Timestamp(post.date)] + TitleWords(title)))
  }

  /** A character an identifier may hold. */
  predicate IdChar(c: char) { IsLowerAlnum(c) || c == '-' }

  predicate AllIdChars(s: string) { forall k :: 0 <= k < |s| ==> IdChar(s[k]) }

  lemma {:induction false} JoinIdChars(parts: seq<string>)
    requires forall k :: 0 <= k < |parts| ==> AllIdChars(parts[k])
    ensures AllIdChars(JoinWith("-", parts))
    decreases |parts|
  {
    if |parts| > 1 {
      JoinIdChars(parts[1..]);
      var a, b := parts[0], JoinWith("-", parts[1..]);
      var s := a + "-" + b;
      forall k | 0 <= k < |s| ensures IdChar(s[k]) {
        if k < |a| {
          assert s[k] == a[k];
        } else if k > |a| {
          assert s[k] == b[k - |a| - 1];
        }
      }
    }
  }

  /** The title words are small ASCII letters and digits, none empty. */
  lemma TitleWordsShape(title: string)
    ensures TitleWords(title) == Words(Sanitize(Lower(title)))
    ensures forall k :: 0 <= k < |TitleWords(title)| ==>
      IsWord(TitleWords(title)[k]) && AllLowerAlnum(TitleWords(title)[k])
  {
    var ws := Words(Sanitize(Lower(title)));
    WordsSpec(Sanitize(Lower(title)));
    KeepNonEmptyOfWords(ws);
    WordsOfSlugText(Sanitize(Lower(title)));
  }

  /** The identifier of a post whose English section has a heading: it
      starts with the eight-digit timestamp, holds only small ASCII letters,
      digits and hyphens, and splits at its hyphens into the timestamp and
      the words of the heading, none of them empty. */
  lemma GetIdShape(post: Post)
    requires post.date.Valid() && GetId(post).Ok?
    ensures var id := GetId(post).value;
      |id| >= 8 && id[..8] == Timestamp(post.date)
      && (|id| == 8 || id[8] == '-')
      && AllIdChars(id)
    ensures var id := GetId(post).value;
      Split(id, "-") == [Timestamp(post.date)] + Words(Sanitize(Lower(HeadingText(post.en).value)))
    ensures forall k :: 0 <= k < |Split(GetId(post).value, "-")| ==> Split(GetId(post).value, "-")[k] != []
  {
    var title := HeadingText(post.en).value;
    TitleWordsShape(title);
    IdOfParts(Timestamp(post.date), TitleWords(title));
  }

  /** The hyphen join of an eight-digit timestamp and some words of small
      ASCII letters and digits. */
  lemma IdOfParts(ts: string, ws: seq<string>)
    requires |ts| == 8 && AllDigits(ts)
    requires forall k :: 0 <= k < |ws| ==> IsWord(ws[k]) && AllLowerAlnum(ws[k])
    ensures var id := JoinWith("-", [ts] + ws);
      |id| >= 8 && id[..8] == ts && (|id| == 8 || id[8] == '-') && AllIdChars(id)
      && Split(id, "-") == [ts] + ws
  {
    var parts := [ts] + ws;
    if ws != [] {
      JoinCons("-", ts, ws);
    }
    IdPartsChars(ts, ws);
    forall k | 0 <= k < |parts| ensures Free(parts[k], "-") {
      assert Lacks(parts[k], '-') by {
        if k > 0 { assert parts[k] == ws[k - 1]; }
      }
      LacksFree(parts[k], '-');
    }
    SplitJoin(parts, "-");
  }

  lemma IdPartsChars(ts: string, ws: seq<string>)
    requires AllDigits(ts)
    requires forall k :: 0 <= k < |ws| ==> AllLowerAlnum(ws[k])
    ensures AllIdChars(JoinWith("-", [ts] + ws))
  {
    var parts := [ts] + ws;
    forall k | 0 <= k < |parts| ensures AllIdChars(parts[k]) {
      if k > 0 { assert parts[k] == ws[k - 1]; }
    }
    JoinIdChars(parts);
  }

  /** A character that lower-cases to something with a small ASCII letter
      or an ASCII digit in it. */
  predicate SlugSource(c: char) {
    'A' <= c <= 'Z' || IsLowerAlnum(c) || c == '\U{212A}' || c == '\U{0130}'
  }

  lemma {:induction false} SanitizeLowerBlank(t: string)
    requires forall k :: 0 <= k < |t| ==> !SlugSource(t[k])
    ensures forall k :: 0 <= k < |Sanitize(Lower(t))| ==> Sanitize(Lower(t))[k] == ' '
    decreases |t|
  {
    if t != [] {
      SanitizeLowerBlank(t[1..]);
      assert Lower(t) == [t[0]] + Lower(t[1..]);
      var s := Lower(t);
      forall k | 0 <= k < |s| ensures Sanitize(s)[k] == ' ' {
        SanitizeKeeps(s, k);
        if k > 0 {
          SanitizeKeeps(s[1..], k - 1);
          SanitizeKeeps(Lower(t[1..]), k - 1);
          assert s[k] == Lower(t[1..])[k - 1];
        }
      }
    }
  }

  /** A heading without ASCII letters or digits (and without the two
      characters that lower-case to one) gives the bare timestamp. */
  lemma GetIdTimestampOnly(post: Post)
    requires post.date.Valid() && HeadingText(post.en).Some?
    requires var t := HeadingText(post.en).value; forall k :: 0 <= k < |t| ==> !SlugSource(t[k])
    ensures GetId(post) == Ok(Timestamp(post.date))
  {
    var t := HeadingText(post.en).value;
    SanitizeLowerBlank(t);
    NoWordsInBlank(Sanitize(Lower(t)));
  }

  /** The identifier is the timestamp then the heading words: two posts on
      the same date get the same identifier exactly when their headings have
      the same words. */
  lemma GetIdInjective(p1: Post, p2: Post)
    requires p1.date.Valid() && p2.date.Valid() && p1.date == p2.date
    requires GetId(p1).Ok? && GetId(p2).Ok?
    ensures GetId(p1) == GetId(p2) <==>
      Words(Sanitize(Lower(HeadingText(p1.en).value))) == Words(Sanitize(Lower(HeadingText(p2.en).value)))
  {
    GetIdShape(p1);
    GetIdShape(p2);
    var w1 := Words(Sanitize(Lower(HeadingText(p1.en).value)));
    var w2 := Words(Sanitize(Lower(HeadingText(p2.en).value)));
    var ts := Timestamp(p1.date);
    if GetId(p1) == GetId(p2) {
      assert ([ts] + w1)[1..] == w1 && ([ts] + w2)[1..] == w2;
    }
  }

  // ---------------------------------------------------------------------
  // Post.part (post.py:140-154)
  // ---------------------------------------------------------------------

  /** The "Λ" link appended to a heading, pointing at the post's anchor. */
  function SelfLink(id: string): Node {
    Element("a", [("class", "selflink"), ("href", "#" + id)], [Text("\U{039B}")])
  }

  /** The heading with its self-link, wrapped in a "post-meta" div together
      with a div holding the date text. */
  function Decorate(heading: Node, id: string, dateText: string): Node
    requires heading.Element?
  {
    Element("div", [("class", "post-meta")],
      [Element(heading.name, heading.attrs, heading.children + [SelfLink(id)]),
       Element("div", [], [Text(dateText)])])
  }

  /** `post.part(key)`: an unknown key gives an empty tree; a section
      without an h1 or h2 is returned as it is; otherwise its heading is
      decorated in place, which needs the post identifier. */
  function Part(post: Post, key: string): (r: Result<Forest, PostError>)
    requires post.date.Valid()
    ensures Soup(post, key).None? ==> r == Ok([])
    ensures r.Err? <==>
      (Soup(post, key).Some?
       && (HasTag(Soup(post, key).value, "h1") || HasTag(Soup(post, key).value, "h2"))
       && GetId(post).Err?)
    ensures r.Err? ==> r.error == MissingHeading
  {
    match Soup(post, key)
    case None => Ok([])
    case Some(soup) =>
      match Heading(soup)
      case None => Ok(soup)
      case Some(p) =>
        match GetId(post)
        case Err(e) => Err(e)
        case Ok(id) => Ok(ReplaceAt(soup, p, Decorate(At(soup, p), id, FormatDate(key, post.date))))
  }

  /** The text of the decorated heading: the heading's own text, the
      self-link's "Λ", then the date. */
  lemma DecoratedText(heading: Node, id: string, dateText: string)
    requires heading.Element?
    ensures NodeText(Decorate(heading, id, dateText))
      == NodeText(heading) + "\U{039B}" + dateText
  {
    var h := Element(heading.name, heading.attrs, heading.children + [SelfLink(id)]);
    var d := Element("div", [], [Text(dateText)]);
    var link := [Text("\U{039B}")];
    assert TextOf(link) == "\U{039B}" by { assert link[1..] == []; }
    assert TextOf([SelfLink(id)]) == "\U{039B}" by { assert [SelfLink(id)][1..] == []; }
    TextOfAppend(heading.children, [SelfLink(id)]);
    assert NodeText(h) == TextOf(heading.children) + "\U{039B}" by { assert [h][1..] == []; }
    assert NodeText(heading) == TextOf(heading.children) by { assert [heading][1..] == []; }
    assert TextOf([Text(dateText)]) == dateText by { assert [Text(dateText)][1..] == []; }
    assert TextOf([d]) == dateText by { assert [d][1..] == []; }
    assert TextOf([h, d]) == NodeText(h) + TextOf([d]) by { assert [h, d][1..] == [d]; }
    var x := Decorate(heading, id, dateText);
    assert NodeText(x) == TextOf([h, d]) by { assert [x][1..] == []; }
  }

  /** A key other than the three section keys gives an empty tree. */
  lemma PartUnknownKey(post: Post, key: string)
    requires post.date.Valid() && key != "fr" && key != "en" && key != "suffix"
    ensures Part(post, key) == Ok([])
  {
  }

  /** A section without an h1 or h2 is left as it is. */
  lemma PartWithoutHeading(post: Post, key: string)
    requires post.date.Valid() && Soup(post, key).Some?
    requires !HasTag(Soup(post, key).value, "h1") && !HasTag(Soup(post, key).value, "h2")
    ensures Part(post, key) == Ok(Soup(post, key).value)
  {
  }

  /** A section with a heading: the part fails exactly when the identifier
      does; otherwise the heading's place holds a "post-meta" div with the
      heading (its self-link to "#" + identifier appended) and a div with
      the date in the section's language, and nothing else in the tree
      changes. */
  lemma PartWithHeading(post: Post, key: string)
    requires post.date.Valid() && Soup(post, key).Some?
    requires HasTag(Soup(post, key).value, "h1") || HasTag(Soup(post, key).value, "h2")
    ensures Part(post, key).Err? <==> GetId(post).Err?
    ensures Part(post, key).Ok? ==>
      var soup, r, p := Soup(post, key).value, Part(post, key).value, Heading(Soup(post, key).value).value;
      var h := At(soup, p);
      |r| == |soup| && ValidPath(r, p)
      && At(r, p) == Element("div", [("class", "post-meta")],
           [Element(h.name, h.attrs, h.children + [SelfLink(GetId(post).value)]),
            Element("div", [], [Text(FormatDate(key, post.date))])])
      && ReplaceAt(r, p, h) == soup
  {
    var soup := Soup(post, key).value;
    var p := Heading(soup).value;
    if GetId(post).Ok? {
      var x := Decorate(At(soup, p), GetId(post).value, FormatDate(key, post.date));
      ReplaceAtSpec(soup, p, x);
      ReplaceAtRestore(soup, p, x);
    }
  }

  /** A section is changed exactly when it has an h1 or h2. */
  lemma PartDecoratesOnlyHeadings(post: Post, key: string)
    requires post.date.Valid() && Soup(post, key).Some? && Part(post, key).Ok?
    ensures Part(post, key).value != Soup(post, key).value
      <==> HasTag(Soup(post, key).value, "h1") || HasTag(Soup(post, key).value, "h2")
  {
    var soup := Soup(post, key).value;
    if HasTag(soup, "h1") || HasTag(soup, "h2") {
      PartWithHeading(post, key);
      var p := Heading(soup).value;
      assert At(Part(post, key).value, p).name == "div";
    }
  }

  // ---------------------------------------------------------------------
  // Post.assemble (post.py:156-171)
  // ---------------------------------------------------------------------

  /** `<a id="...">`, the target of links to the post. */
  function Anchor(id: string): Node {
    Element("a", [("id", id)], [])
  }

  /** `<div class="...">` holding one section. */
  function SectionBox(class_: string, ns: Forest): Node {
    Element("div", [("class", class_)], ns)
  }

  /** The suffix, kept only when it serializes to something. */
  function SuffixNodes(suffix: Forest): Forest {
    if Serialize(suffix) != "" then suffix else []
  }

  /** The calls `assemble` makes, in order: the French, English and suffix
      parts, then `get_id`; the first failure stops it. */
  function CollectParts(post: Post): Result<(string, Forest, Forest, Forest), PostError>
    requires post.date.Valid()
  {
    match Part(post, "fr")
    case Err(e) => Err(e)
    case Ok(fr) =>
      match Part(post, "en")
      case Err(e) => Err(e)
      case Ok(en) =>
        match Part(post, "suffix")
        case Err(e) => Err(e)
        case Ok(suffix) =>
          match GetId(post)
          case Err(e) => Err(e)
          case Ok(id) => Ok((id, fr, en, suffix))
  }

  /** The layout `assemble` builds as written. `parts` is a document whose
      one node is the polyglot div, and `parts.append` adds at the top level
      of that document, so the section divs and the suffix land beside the
      polyglot div, which stays empty. */
  function LayoutAsWritten(id: string, fr: Forest, en: Forest, suffix: Forest): Forest {
    var parts := [Element("div", [("class", "polyglot")], []),
                  SectionBox("fr", fr), SectionBox("en noshow", en)] + SuffixNodes(suffix);
    [Element("article", [], [Anchor(id)] + parts)]
  }

  /** The layout with the sections inside the polyglot div: an article
      holding the anchor, then the polyglot div with the French section, the
      English section (hidden by default) and the suffix. */
  function Layout(id: string, fr: Forest, en: Forest, suffix: Forest): Forest {
    var sections := [SectionBox("fr", fr), SectionBox("en noshow", en)] + SuffixNodes(suffix);
    [Element("article", [], [Anchor(id), Element("div", [("class", "polyglot")], sections)])]
  }

  /** `post.assemble()` as written. */
  function AssembleAsWritten(post: Post): (r: Result<Forest, PostError>)
    requires post.date.Valid()
    ensures r.Err? ==> r.error == MissingHeading
    ensures r.Ok? ==> |r.value| == 1 && r.value[0].Element? && r.value[0].name == "article"
  {
    match CollectParts(post)
    case Err(e) => Err(e)
    case Ok((id, fr, en, suffix)) => Ok(LayoutAsWritten(id, fr, en, suffix))
  }

  /** `post.assemble()` with the sections inside the polyglot div. */
  function Assemble(post: Post): (r: Result<Forest, PostError>)
    requires post.date.Valid()
    ensures r.Err? ==> r.error == MissingHeading
    ensures r.Ok? ==> |r.value| == 1 && r.value[0].Element? && r.value[0].name == "article"
  {
    match CollectParts(post)
    case Err(e) => Err(e)
    case Ok((id, fr, en, suffix)) => Ok(Layout(id, fr, en, suffix))
  }

  /** Collecting the parts fails, for the missing heading, exactly when the
      English section has neither an h1 nor an h2; otherwise it yields the
      identifier and the three parts. */
  lemma CollectPartsSpec(post: Post)
    requires post.date.Valid()
    ensures CollectParts(post).Err? <==> !HasTag(post.en, "h1") && !HasTag(post.en, "h2")
    ensures CollectParts(post).Err? ==> CollectParts(post).error == MissingHeading
    ensures CollectParts(post).Ok? ==>
      && Part(post, "fr").Ok? && Part(post, "en").Ok? && Part(post, "suffix").Ok?
      && CollectParts(post).value
         == (GetId(post).value, Part(post, "fr").value, Part(post, "en").value, Part(post, "suffix").value)
  {
    if GetId(post).Ok? {
      PartsSucceed(post);
    }
  }

  /** Every part succeeds once the English section has a heading. */
  lemma PartsSucceed(post: Post)
    requires post.date.Valid() && GetId(post).Ok?
    ensures Part(post, "fr").Ok? && Part(post, "en").Ok? && Part(post, "suffix").Ok?
  {
  }

  /** Assembly fails, for the missing heading, exactly when the English
      section has neither an h1 nor an h2, as written and corrected alike. */
  lemma AssembleFails(post: Post)
    requires post.date.Valid()
    ensures Assemble(post).Err? <==> !HasTag(post.en, "h1") && !HasTag(post.en, "h2")
    ensures Assemble(post).Err? ==> Assemble(post).error == MissingHeading
    ensures AssembleAsWritten(post).Err? <==> Assemble(post).Err?
  {
    CollectPartsSpec(post);
  }

  /** The assembled post: one article whose first child is the anchor
      carrying the identifier, and whose second is the polyglot div holding
      the French section, then the English one marked "en noshow", then the
      suffix's nodes unless the suffix is blank. */
  lemma AssembleLayout(post: Post)
    requires post.date.Valid() && (HasTag(post.en, "h1") || HasTag(post.en, "h2"))
    ensures Assemble(post).Ok?
    ensures var f := Assemble(post).value;
      var fr, en, suffix := Part(post, "fr").value, Part(post, "en").value, Part(post, "suffix").value;
      |f| == 1 && f[0].Element? && f[0].name == "article" && |f[0].children| == 2
      && f[0].children[0] == Element("a", [("id", GetId(post).value)], [])
      && f[0].children[1].Element? && f[0].children[1].attrs == [("class", "polyglot")]
      && f[0].children[1].children[..2] == [Element("div", [("class", "fr")], fr),
                                            Element("div", [("class", "en noshow")], en)]
      && f[0].children[1].children[2..] == (if Blank(suffix) then [] else suffix)
  {
    AssembleFails(post);
    CollectPartsSpec(post);
    var (id, fr, en, suffix) := CollectParts(post).value;
    LayoutShape(id, fr, en, suffix);
  }

  lemma LayoutShape(id: string, fr: Forest, en: Forest, suffix: Forest)
    ensures var f := Layout(id, fr, en, suffix);
      |f| == 1 && f[0].Element? && f[0].name == "article" && |f[0].children| == 2
      && f[0].children[0] == Element("a", [("id", id)], [])
      && f[0].children[1].Element? && f[0].children[1].attrs == [("class", "polyglot")]
      && f[0].children[1].children[..2] == [Element("div", [("class", "fr")], fr),
                                            Element("div", [("class", "en noshow")], en)]
      && f[0].children[1].children[2..] == (if Blank(suffix) then [] else suffix)
  {
    SerializeEmpty(suffix);
    var sections := [SectionBox("fr", fr), SectionBox("en noshow", en)] + SuffixNodes(suffix);
    assert sections[2..] == SuffixNodes(suffix);
  }

  /** As written, the polyglot div is always empty and the sections are its
      siblings: for any post whose English section has a heading, the
      article holds the anchor carrying the identifier, the empty polyglot
      div, the two section divs, then the suffix's nodes unless the suffix
      is blank (`AssembleLayout` gives the corrected layout, with the
      sections inside the polyglot div). */
  lemma AssembleAsWrittenPolyglotEmpty(post: Post)
    requires post.date.Valid() && (HasTag(post.en, "h1") || HasTag(post.en, "h2"))
    ensures AssembleAsWritten(post).Ok?
    ensures var f := AssembleAsWritten(post).value;
      var suffix := Part(post, "suffix").value;
      |f| == 1 && f[0].Element? && f[0].name == "article" && |f[0].children| >= 4
      && f[0].children[0] == Element("a", [("id", GetId(post).value)], [])
      && f[0].children[1] == Element("div", [("class", "polyglot")], [])
      && f[0].children[2] == Element("div", [("class", "fr")], Part(post, "fr").value)
      && f[0].children[3] == Element("div", [("class", "en noshow")], Part(post, "en").value)
      && f[0].children[4..] == (if Blank(suffix) then [] else suffix)
  {
    AssembleFails(post);
    CollectPartsSpec(post);
    var (id, fr, en, suffix) := CollectParts(post).value;
    LayoutAsWrittenShape(id, fr, en, suffix);
  }

  lemma LayoutAsWrittenShape(id: string, fr: Forest, en: Forest, suffix: Forest)
    ensures var f := LayoutAsWritten(id, fr, en, suffix);
      |f| == 1 && f[0].Element? && f[0].name == "article" && |f[0].children| >= 4
      && f[0].children[0] == Element("a", [("id", id)], [])
      && f[0].children[1] == Element("div", [("class", "polyglot")], [])
      && f[0].children[2] == Element("div", [("class", "fr")], fr)
      && f[0].children[3] == Element("div", [("class", "en noshow")], en)
      && f[0].children[4..] == (if Blank(suffix) then [] else suffix)
  {
    SerializeEmpty(suffix);
    var parts := [Element("div", [("class", "polyglot")], []),
                  SectionBox("fr", fr), SectionBox("en noshow", en)] + SuffixNodes(suffix);
    assert ([Anchor(id)] + parts)[1..4] == parts[..3];
    assert ([Anchor(id)] + parts)[4..] == parts[3..] == SuffixNodes(suffix);
  }
}
