/**
  The string operations of Python that post.py relies on, over `string`
  (a sequence of Unicode scalar values): `str.strip()`, `str.find`,
  `str.split(sep)`, `str.split()`, `sep.join(parts)`, `int()` and `str()` on
  decimal numbers, and the ASCII part of `str.lower()` / `str.capitalize()`.
*/
module Strings {
  import opened Wrappers

  // ---------------------------------------------------------------------
  // Character classes
  // ---------------------------------------------------------------------

  /** The characters for which Python's `str.isspace()` holds; these are the
      characters `str.strip()` and `str.split()` treat as whitespace. */
  predicate IsSpace(c: char) {
    var n := c as int;
    (9 <= n <= 13) || (28 <= n <= 32) || n == 0x85 || n == 0xA0 || n == 0x1680
    || (0x2000 <= n <= 0x200A) || n == 0x2028 || n == 0x2029 || n == 0x202F
    || n == 0x205F || n == 0x3000
  }

  predicate IsDigit(c: char) { '0' <= c <= '9' }

  predicate IsLowerAlnum(c: char) { 'a' <= c <= 'z' || '0' <= c <= '9' }

  predicate AllDigits(s: string) { forall k :: 0 <= k < |s| ==> IsDigit(s[k]) }

  // ---------------------------------------------------------------------
  // str.strip()
  // ---------------------------------------------------------------------

  /** `s.lstrip()`: drops whitespace from the front, one character at a time. */
  function StripLeft(s: string): (r: string)
    ensures |r| <= |s|
    decreases |s|
  {
    if |s| > 0 && IsSpace(s[0]) then StripLeft(s[1..]) else s
  }

  /** `s.lstrip()` is the longest suffix of `s` that does not start with
      whitespace: what it drops is whitespace and what it keeps starts with
      something else. */
  lemma {:induction false} StripLeftSpec(s: string)
    ensures StripLeft(s) == s[|s| - |StripLeft(s)|..]
    ensures forall k :: 0 <= k < |s| - |StripLeft(s)| ==> IsSpace(s[k])
    ensures StripLeft(s) == [] || !IsSpace(StripLeft(s)[0])
    decreases |s|
  {
    if |s| > 0 && IsSpace(s[0]) {
      var t := s[1..];
      StripLeftSpec(t);
      assert t[|t| - |StripLeft(t)|..] == s[|s| - |StripLeft(s)|..];
      forall k | 1 <= k < |s| - |StripLeft(s)| ensures IsSpace(s[k]) {
        assert s[k] == t[k - 1];
      }
    }
  }

  /** `s.rstrip()`: drops whitespace from the back, one character at a time. */
  function StripRight(s: string): (r: string)
    ensures |r| <= |s|
    decreases |s|
  {
    if |s| > 0 && IsSpace(s[|s| - 1]) then StripRight(s[..|s| - 1]) else s
  }

  /** `s.rstrip()` is the longest prefix of `s` that does not end with
      whitespace. */
  lemma {:induction false} StripRightSpec(s: string)
    ensures StripRight(s) == s[..|StripRight(s)|]
    ensures forall k :: |StripRight(s)| <= k < |s| ==> IsSpace(s[k])
    ensures StripRight(s) == [] || !IsSpace(StripRight(s)[|StripRight(s)| - 1])
    decreases |s|
  {
    if |s| > 0 && IsSpace(s[|s| - 1]) {
      var t := s[..|s| - 1];
      StripRightSpec(t);
      assert t[..|StripRight(t)|] == s[..|StripRight(s)|];
      forall k | |StripRight(s)| <= k < |s| - 1 ensures IsSpace(s[k]) {
        assert s[k] == t[k];
      }
    }
  }

  /** A string with no whitespace at either end. */
  predicate IsTrimmed(s: string) {
    s == [] || (!IsSpace(s[0]) && !IsSpace(s[|s| - 1]))
  }

  /** Number of whitespace characters that `s.lstrip()` removes. */
  function LeadingSpaces(s: string): (n: nat)
    ensures n <= |s|
  {
    |s| - |StripLeft(s)|
  }

  /** `s.strip()`: the text with the whitespace runs at both ends removed;
      what is left has no whitespace at either end. */
  function Strip(s: string): (r: string)
    ensures IsTrimmed(r) && |r| <= |s|
  {
    var l := StripLeft(s);
    StripLeftSpec(s);
    StripRightSpec(l);
    assert StripRight(l) != [] ==> StripRight(l)[0] == l[0];
    StripRight(l)
  }

  /** What `Strip` removes is whitespace, from both ends only. */
  lemma StripSlice(s: string)
    ensures LeadingSpaces(s) + |Strip(s)| <= |s|
    ensures Strip(s) == s[LeadingSpaces(s)..LeadingSpaces(s) + |Strip(s)|]
    ensures forall k :: 0 <= k < LeadingSpaces(s) ==> IsSpace(s[k])
    ensures forall k :: LeadingSpaces(s) + |Strip(s)| <= k < |s| ==> IsSpace(s[k])
  {
    StripMiddle(s);
    StripTrailing(s);
    StripLeftSpec(s);
  }

  lemma StripMiddle(s: string)
    ensures LeadingSpaces(s) + |Strip(s)| <= |s|
    ensures Strip(s) == s[LeadingSpaces(s)..LeadingSpaces(s) + |Strip(s)|]
  {
    var l := StripLeft(s);
    StripLeftSpec(s);
    var r := StripRight(l);
    StripRightSpec(l);
    assert Strip(s) == r;
    assert r == l[..|r|];
  }

  lemma StripTrailing(s: string)
    ensures forall k :: LeadingSpaces(s) + |Strip(s)| <= k < |s| ==> IsSpace(s[k])
  {
    var l := StripLeft(s);
    StripLeftSpec(s);
    var r := StripRight(l);
    StripRightSpec(l);
    var n := LeadingSpaces(s);
    assert Strip(s) == r;
    forall k | n + |r| <= k < |s| ensures IsSpace(s[k]) {
      assert s[k] == l[k - n];
    }
  }

  lemma StripLeftOfTrimmed(s: string)
    requires s == [] || !IsSpace(s[0])
    ensures StripLeft(s) == s
  {
  }

  lemma StripRightOfTrimmed(s: string)
    requires s == [] || !IsSpace(s[|s| - 1])
    ensures StripRight(s) == s
  {
  }

  /** Stripping a string that has no whitespace at either end leaves it alone;
      in particular `Strip` is idempotent. */
  lemma StripOfTrimmed(s: string)
    requires IsTrimmed(s)
    ensures Strip(s) == s
  {
    StripLeftOfTrimmed(s);
    StripRightOfTrimmed(s);
  }

  /** On a text that does not start with whitespace, `Strip` only drops a
      trailing whitespace run. */
  lemma StripOfUnindented(s: string)
    requires s == [] || !IsSpace(s[0])
    ensures Strip(s) == s[..|Strip(s)|]
    ensures forall k :: |Strip(s)| <= k < |s| ==> IsSpace(s[k])
  {
    StripLeftOfTrimmed(s);
    StripRightSpec(s);
  }

  lemma StripIdempotent(s: string)
    ensures Strip(Strip(s)) == Strip(s)
  {
    StripOfTrimmed(Strip(s));
  }

  // ---------------------------------------------------------------------
  // str.find, str.split(sep), sep.join(parts)
  // ---------------------------------------------------------------------

  /** `pat` occurs in `s` at index `i`. */
  predicate OccursAt(s: string, pat: string, i: nat) {
    i + |pat| <= |s| && s[i..i + |pat|] == pat
  }

  /** `pat` does not occur anywhere in `s`. */
  predicate Free(s: string, pat: string) {
    forall i: nat :: i <= |s| ==> !OccursAt(s, pat, i)
  }

  /** `s.find(pat)`: scans from the left; None stands for -1. */
  function Find(s: string, pat: string): (r: Option<nat>)
    ensures r.Some? ==> r.value + |pat| <= |s|
    decreases |s|
  {
    if |s| < |pat| then None
    else if s[..|pat|] == pat then Some(0)
    else
      match Find(s[1..], pat)
      case None => None
      case Some(i) => Some(i + 1)
  }

  /** An occurrence in `s` one place on is an occurrence in `s[1..]`. */
  lemma OccursShift(s: string, pat: string, j: nat)
    requires |s| > 0
    ensures OccursAt(s, pat, j + 1) == OccursAt(s[1..], pat, j)
  {
    if j + 1 + |pat| <= |s| {
      assert s[1..][j..j + |pat|] == s[j + 1..j + 1 + |pat|];
    }
  }

  /** `Find` reports the first occurrence, and None only when there is none. */
  lemma {:induction false} FindSpec(s: string, pat: string)
    ensures Find(s, pat).Some? ==> OccursAt(s, pat, Find(s, pat).value)
    ensures Find(s, pat).Some? ==> forall j: nat :: j < Find(s, pat).value ==> !OccursAt(s, pat, j)
    ensures Find(s, pat).None? ==> Free(s, pat)
    decreases |s|
  {
    if |s| >= |pat| && s[..|pat|] != pat {
      var t := s[1..];
      FindSpec(t, pat);
      match Find(t, pat)
      case None =>
        forall j: nat | j <= |s| ensures !OccursAt(s, pat, j) {
          if j > 0 { OccursShift(s, pat, j - 1); }
        }
      case Some(i) =>
        OccursShift(s, pat, i);
        forall j: nat | j < i + 1 ensures !OccursAt(s, pat, j) {
          if j > 0 { OccursShift(s, pat, j - 1); }
        }
    }
  }

  /** Any occurrence with no earlier one is the one `Find` reports. */
  lemma FindIsFirst(s: string, pat: string, i: nat)
    requires OccursAt(s, pat, i)
    requires forall j: nat :: j < i ==> !OccursAt(s, pat, j)
    ensures Find(s, pat) == Some(i)
  {
    FindSpec(s, pat);
  }

  /** `s.split(sep)` for a non-empty separator: the pieces between the
      successive left-most, non-overlapping occurrences of `sep`. */
  function Split(s: string, sep: string): (r: seq<string>)
    requires |sep| > 0
    ensures |r| >= 1
    decreases |s|
  {
    match Find(s, sep)
    case None => [s]
    case Some(i) => [s[..i]] + Split(s[i + |sep|..], sep)
  }

  /** The text before the first occurrence of `pat` does not contain `pat`. */
  lemma PrefixBeforeFind(s: string, pat: string, i: nat)
    requires |pat| > 0 && Find(s, pat) == Some(i)
    ensures Free(s[..i], pat)
  {
    FindSpec(s, pat);
    var head := s[..i];
    forall j: nat | j <= |head| ensures !OccursAt(head, pat, j) {
      if j + |pat| <= |head| {
        assert s[j..j + |pat|] == head[j..j + |pat|];
        assert j < i && !OccursAt(s, pat, j);
      }
    }
  }

  /** No piece of a split contains the separator, and a text without the
      separator is a single piece. */
  lemma {:induction false} SplitSpec(s: string, sep: string)
    requires |sep| > 0
    ensures forall k :: 0 <= k < |Split(s, sep)| ==> Free(Split(s, sep)[k], sep)
    ensures Free(s, sep) ==> Split(s, sep) == [s]
    decreases |s|
  {
    FindSpec(s, sep);
    match Find(s, sep)
    case None =>
    case Some(i) =>
      var tail := s[i + |sep|..];
      PrefixBeforeFind(s, sep, i);
      SplitSpec(tail, sep);
      var r := Split(s, sep);
      assert r == [s[..i]] + Split(tail, sep);
      forall k | 0 <= k < |r| ensures Free(r[k], sep) {
        if k > 0 { assert r[k] == Split(tail, sep)[k - 1]; }
      }
  }

  /** `sep.join(parts)`. */
  function JoinWith(sep: string, parts: seq<string>): string
    decreases |parts|
  {
    if |parts| == 0 then ""
    else if |parts| == 1 then parts[0]
    else parts[0] + sep + JoinWith(sep, parts[1..])
  }

  lemma JoinCons(sep: string, a: string, rest: seq<string>)
    requires |rest| >= 1
    ensures JoinWith(sep, [a] + rest) == a + sep + JoinWith(sep, rest)
  {
    assert ([a] + rest)[1..] == rest;
  }

  lemma SplitAt(s: string, sep: string, i: nat)
    requires |sep| > 0 && Find(s, sep) == Some(i)
    ensures s == s[..i] + sep + s[i + |sep|..]
    ensures Split(s, sep) == [s[..i]] + Split(s[i + |sep|..], sep)
  {
    FindSpec(s, sep);
  }

  /** Joining the pieces of a split with the separator gives back the text. */
  lemma {:induction false} JoinSplit(s: string, sep: string)
    requires |sep| > 0
    ensures JoinWith(sep, Split(s, sep)) == s
    decreases |s|
  {
    var f := Find(s, sep);
    if f.Some? {
      var i := f.value;
      var tail := s[i + |sep|..];
      SplitAt(s, sep, i);
      JoinSplit(tail, sep);
      JoinCons(sep, s[..i], Split(tail, sep));
    }
  }

  /** Joining two non-empty lists of parts puts one separator between the
      two joins. */
  lemma {:induction false} JoinAppend(sep: string, a: seq<string>, b: seq<string>)
    requires |a| >= 1 && |b| >= 1
    ensures JoinWith(sep, a + b) == JoinWith(sep, a) + sep + JoinWith(sep, b)
    decreases |a|
  {
    if |a| == 1 {
      JoinCons(sep, a[0], b);
      assert a + b == [a[0]] + b;
    } else {
      JoinAppend(sep, a[1..], b);
      assert (a + b)[1..] == a[1..] + b;
    }
  }

  /** `c` does not occur in `w`. */
  predicate Lacks(w: string, c: char) {
    forall k :: 0 <= k < |w| ==> w[k] != c
  }

  /** A text without the character `c` holds no occurrence of `[c]`. */
  lemma LacksFree(w: string, c: char)
    requires Lacks(w, c)
    ensures Free(w, [c])
  {
    forall i: nat | i <= |w| ensures !OccursAt(w, [c], i) {
      if i + 1 <= |w| {
        assert w[i..i + 1][0] == w[i];
      }
    }
  }

  /** The last character of `sep` occurs nowhere else in it (true of "---\n"
      and of every one-character separator); then an occurrence cannot start
      inside a piece and end inside the separator that follows it. */
  predicate LastCharUnique(sep: string) {
    |sep| > 0 && forall k :: 0 <= k < |sep| - 1 ==> sep[k] != sep[|sep| - 1]
  }

  lemma {:induction false} FirstOccurrenceAfterPiece(p: string, sep: string, t: string)
    requires LastCharUnique(sep) && Free(p, sep)
    ensures Find(p + sep + t, sep) == Some(|p|)
  {
    var s := p + sep + t;
    assert s[|p|..|p| + |sep|] == sep;
    forall j: nat | j < |p| ensures !OccursAt(s, sep, j) {
      if j + |sep| <= |p| {
        assert p[j..j + |sep|] == s[j..j + |sep|];
        assert !OccursAt(p, sep, j);
      } else if j + |sep| <= |s| {
        var last := j + |sep| - 1;
        assert s[j..j + |sep|][|sep| - 1] == s[last] == sep[last - |p|];
      }
    }
    FindIsFirst(s, sep, |p|);
  }

  /** Splitting a join gives back the pieces, when no piece contains the
      separator and the separator cannot straddle a boundary. */
  lemma {:induction false} SplitJoin(parts: seq<string>, sep: string)
    requires LastCharUnique(sep) && |parts| > 0
    requires forall k :: 0 <= k < |parts| ==> Free(parts[k], sep)
    ensures Split(JoinWith(sep, parts), sep) == parts
    decreases |parts|
  {
    if |parts| > 1 {
      var p, rest := parts[0], parts[1..];
      var t := JoinWith(sep, rest);
      var s := p + sep + t;
      assert JoinWith(sep, parts) == s;
      FirstOccurrenceAfterPiece(p, sep, t);
      assert s[..|p|] == p;
      assert s[|p| + |sep|..] == t;
      assert Split(s, sep) == [p] + Split(t, sep);
      forall k | 0 <= k < |rest| ensures Free(rest[k], sep) {
        assert rest[k] == parts[k + 1];
      }
      SplitJoin(rest, sep);
      assert parts == [p] + rest;
    } else {
      SplitSpec(parts[0], sep);
    }
  }

  // ---------------------------------------------------------------------
  // str.split() without a separator
  // ---------------------------------------------------------------------

  /** Length of the leading run of non-whitespace characters. */
  function WordEnd(t: string): (n: nat)
    ensures n <= |t|
    ensures t != [] && !IsSpace(t[0]) ==> n > 0
  {
    if t == [] || IsSpace(t[0]) then 0 else 1 + WordEnd(t[1..])
  }

  /** The run `WordEnd` measures is maximal: no whitespace in it, whitespace
      (or the end) right after it. */
  lemma {:induction false} WordEndSpec(t: string)
    ensures forall k :: 0 <= k < WordEnd(t) ==> !IsSpace(t[k])
    ensures WordEnd(t) < |t| ==> IsSpace(t[WordEnd(t)])
  {
    if t != [] && !IsSpace(t[0]) {
      WordEndSpec(t[1..]);
      forall k | 1 <= k < WordEnd(t) ensures !IsSpace(t[k]) {
        assert t[k] == t[1..][k - 1];
      }
    }
  }

  /** `s.split()`: the maximal runs of non-whitespace characters, in order. */
  function Words(s: string): seq<string>
    decreases |s|
  {
    if s == [] then []
    else if IsSpace(s[0]) then Words(s[1..])
    else
      var n := WordEnd(s);
      [s[..n]] + Words(s[n..])
  }

  /** A non-empty run of non-whitespace characters. */
  predicate IsWord(w: string) {
    w != [] && forall j :: 0 <= j < |w| ==> !IsSpace(w[j])
  }

  /** Every piece `str.split()` returns is a word: never empty, no whitespace. */
  lemma {:induction false} WordsSpec(s: string)
    ensures forall k :: 0 <= k < |Words(s)| ==> IsWord(Words(s)[k])
    decreases |s|
  {
    if s != [] {
      if IsSpace(s[0]) {
        WordsSpec(s[1..]);
      } else {
        var n := WordEnd(s);
        WordEndSpec(s);
        var u := s[n..];
        WordsSpec(u);
        var r := Words(s);
        assert r == [s[..n]] + Words(u);
        forall k | 0 <= k < |r| ensures IsWord(r[k]) {
          if k > 0 { assert r[k] == Words(u)[k - 1]; }
        }
      }
    }
  }

  /** The non-whitespace characters of `s`, in order. */
  function NonSpace(s: string): string {
    if s == [] then [] else (if IsSpace(s[0]) then [] else [s[0]]) + NonSpace(s[1..])
  }

  function Concat(ws: seq<string>): string {
    if ws == [] then [] else ws[0] + Concat(ws[1..])
  }

  lemma {:induction false} NonSpaceAppend(a: string, b: string)
    ensures NonSpace(a + b) == NonSpace(a) + NonSpace(b)
    decreases |a|
  {
    if a != [] {
      assert (a + b)[0] == a[0];
      assert (a + b)[1..] == a[1..] + b;
      NonSpaceAppend(a[1..], b);
    } else {
      assert a + b == b;
    }
  }

  lemma {:induction false} NonSpaceOfWord(w: string)
    requires forall k :: 0 <= k < |w| ==> !IsSpace(w[k])
    ensures NonSpace(w) == w
    decreases |w|
  {
    if w != [] { NonSpaceOfWord(w[1..]); }
  }

  /** `str.split()` loses exactly the whitespace: its words, concatenated,
      are the non-whitespace characters of the text in order. */
  lemma {:induction false} WordsConcat(s: string)
    ensures Concat(Words(s)) == NonSpace(s)
    decreases |s|
  {
    if s != [] {
      if IsSpace(s[0]) {
        WordsConcat(s[1..]);
      } else {
        var n := WordEnd(s);
        var w, u := s[..n], s[n..];
        WordEndSpec(s);
        assert NonSpace(s) == w + NonSpace(u) by {
          assert s == w + u;
          NonSpaceAppend(w, u);
          NonSpaceOfWord(w);
        }
        WordsConcat(u);
        var ws := Words(u);
        assert Concat([w] + ws) == w + Concat(ws) by {
          assert ([w] + ws)[1..] == ws;
        }
      }
    }
  }

  /** A word followed by whitespace (or nothing) ends where the word ends. */
  lemma {:induction false} WordEndOfWord(w: string, t: string)
    requires forall j :: 0 <= j < |w| ==> !IsSpace(w[j])
    requires t == [] || IsSpace(t[0])
    ensures WordEnd(w + t) == |w|
    decreases |w|
  {
    if w == [] {
      assert w + t == t;
    } else {
      assert (w + t)[0] == w[0];
      assert (w + t)[1..] == w[1..] + t;
      WordEndOfWord(w[1..], t);
    }
  }

  /** The words of a single word. */
  lemma WordsOfWord(w: string)
    requires IsWord(w)
    ensures Words(w) == [w]
  {
    WordEndOfWord(w, []);
    assert w + [] == w;
    assert w[..|w|] == w && w[|w|..] == [];
  }

  /** A text whose leading run ends before its end keeps that run when
      more text is appended. */
  lemma {:induction false} WordEndPrefix(a: string, b: string)
    requires WordEnd(a) < |a|
    ensures WordEnd(a + b) == WordEnd(a)
    decreases |a|
  {
    assert (a + b)[0] == a[0];
    if !IsSpace(a[0]) {
      assert (a + b)[1..] == a[1..] + b;
      WordEndPrefix(a[1..], b);
    }
  }

  /** `str.split()` treats a run of whitespace as one separator: splitting
      two texts that meet at whitespace (or where either is empty) gives the
      words of the first, then those of the second. */
  lemma {:induction false} WordsAppend(a: string, b: string)
    requires a == [] || b == [] || IsSpace(a[|a| - 1]) || IsSpace(b[0])
    ensures Words(a + b) == Words(a) + Words(b)
    decreases |a|, 1
  {
    if a == [] {
      assert a + b == b;
    } else if IsSpace(a[0]) {
      WordsAppendAfterSpace(a, b);
    } else if WordEnd(a) < |a| {
      WordsAppendAfterWord(a, b);
    } else {
      WordsAppendWord(a, b);
    }
  }

  lemma {:induction false} WordsAppendAfterSpace(a: string, b: string)
    requires a != [] && IsSpace(a[0])
    requires b == [] || IsSpace(a[|a| - 1]) || IsSpace(b[0])
    ensures Words(a + b) == Words(a) + Words(b)
    decreases |a|, 0
  {
    assert (a + b)[0] == a[0];
    assert (a + b)[1..] == a[1..] + b;
    if a[1..] != [] {
      assert a[1..][|a[1..]| - 1] == a[|a| - 1];
    }
    WordsAppend(a[1..], b);
  }

  lemma {:induction false} WordsAppendAfterWord(a: string, b: string)
    requires a != [] && !IsSpace(a[0]) && WordEnd(a) < |a|
    requires b == [] || IsSpace(a[|a| - 1]) || IsSpace(b[0])
    ensures Words(a + b) == Words(a) + Words(b)
    decreases |a|, 0
  {
    var n := WordEnd(a);
    var w, u := a[..n], a[n..];
    calc {
      Words(a + b);
    == { WordsAfterFirst(a, b); }
      [w] + Words(u + b);
    == { assert u[|u| - 1] == a[|a| - 1]; WordsAppend(u, b); }
      [w] + (Words(u) + Words(b));
    ==
      ([w] + Words(u)) + Words(b);
    == { WordsStep(a); }
      Words(a) + Words(b);
    }
  }

  /** Appending text after the first word's end leaves the first word alone. */
  lemma WordsAfterFirst(a: string, b: string)
    requires a != [] && !IsSpace(a[0]) && WordEnd(a) < |a|
    ensures Words(a + b) == [a[..WordEnd(a)]] + Words(a[WordEnd(a)..] + b)
  {
    WordEndPrefix(a, b);
    AppendSlices(a, b, WordEnd(a));
    assert (a + b)[0] == a[0];
    WordsStep(a + b);
  }

  /** One step of `Words` on a text that starts with a word. */
  lemma WordsStep(s: string)
    requires s != [] && !IsSpace(s[0])
    ensures Words(s) == [s[..WordEnd(s)]] + Words(s[WordEnd(s)..])
  {
  }

  lemma AppendSlices(a: string, b: string, n: nat)
    requires n <= |a|
    ensures (a + b)[..n] == a[..n] && (a + b)[n..] == a[n..] + b
  {
  }

  lemma WordsAppendWord(a: string, b: string)
    requires a != [] && !IsSpace(a[0]) && WordEnd(a) == |a|
    requires b == [] || IsSpace(a[|a| - 1]) || IsSpace(b[0])
    ensures Words(a + b) == Words(a) + Words(b)
  {
    WordEndSpec(a);
    assert IsWord(a);
    WordsOfWord(a);
    WordEndOfWord(a, b);
    assert (a + b)[0] == a[0];
    assert (a + b)[..|a|] == a && (a + b)[|a|..] == b;
  }

  /** `" ".join(ws).split() == ws` for words: `str.split()` cuts exactly
      between the words a single space joined. */
  lemma {:induction false} WordsJoin(ws: seq<string>)
    requires forall k :: 0 <= k < |ws| ==> IsWord(ws[k])
    ensures Words(JoinWith(" ", ws)) == ws
    decreases |ws|
  {
    if |ws| == 1 {
      WordsOfWord(ws[0]);
    } else if |ws| > 1 {
      var w, rest := ws[0], JoinWith(" ", ws[1..]);
      var t := " " + rest;
      var s := JoinWith(" ", ws);
      assert s == w + t;
      assert IsWord(w);
      WordEndOfWord(w, t);
      assert s[0] == w[0];
      assert s[..|w|] == w && s[|w|..] == t;
      assert Words(s) == [w] + Words(t);
      assert t[1..] == rest;
      assert Words(t) == Words(rest);
      WordsJoin(ws[1..]);
    }
  }

  /** Text made only of small ASCII letters, ASCII digits and spaces. */
  predicate IsSlugText(s: string) {
    forall k :: 0 <= k < |s| ==> IsLowerAlnum(s[k]) || s[k] == ' '
  }

  /** Text made only of small ASCII letters and ASCII digits. */
  predicate AllLowerAlnum(s: string) {
    forall k :: 0 <= k < |s| ==> IsLowerAlnum(s[k])
  }

  lemma SlugTextSlice(s: string, i: nat, j: nat)
    requires IsSlugText(s) && i <= j <= |s|
    ensures IsSlugText(s[i..j])
  {
    assert forall k :: 0 <= k < j - i ==> s[i..j][k] == s[i + k];
  }

  /** Every word of `s` has only small ASCII letters and digits when `s`
      has only those and spaces. */
  lemma {:induction false} WordsOfSlugText(s: string)
    requires IsSlugText(s)
    ensures forall k :: 0 <= k < |Words(s)| ==> AllLowerAlnum(Words(s)[k])
    decreases |s|
  {
    if s != [] {
      if IsSpace(s[0]) {
        SlugTextSlice(s, 1, |s|);
        WordsOfSlugText(s[1..]);
      } else {
        var n := WordEnd(s);
        WordEndSpec(s);
        var w, u := s[..n], s[n..];
        SlugTextSlice(s, 0, n);
        SlugTextSlice(s, n, |s|);
        assert AllLowerAlnum(w) by {
          forall k | 0 <= k < |w| ensures IsLowerAlnum(w[k]) {
            assert w[k] == s[k];
            assert !IsSpace(s[k]);
          }
        }
        WordsOfSlugText(u);
        var r := Words(s);
        assert r == [w] + Words(u);
        forall k | 0 <= k < |r| ensures AllLowerAlnum(r[k]) {
          if k > 0 { assert r[k] == Words(u)[k - 1]; }
        }
      }
    }
  }

  /** A text with no non-whitespace character has no words. */
  lemma {:induction false} NoWordsInBlank(s: string)
    requires forall k :: 0 <= k < |s| ==> IsSpace(s[k])
    ensures Words(s) == []
    decreases |s|
  {
    if s != [] {
      assert forall k :: 0 <= k < |s| - 1 ==> s[1..][k] == s[k + 1];
      NoWordsInBlank(s[1..]);
    }
  }

  // ---------------------------------------------------------------------
  // int() and str() on decimal numbers
  // ---------------------------------------------------------------------

  function DigitChar(d: nat): (c: char)
    requires d < 10
    ensures IsDigit(c)
  {
    ('0' as int + d) as char
  }

  function DigitValue(c: char): (d: nat)
    requires IsDigit(c)
    ensures d < 10 && DigitChar(d) == c
  {
    c as int - '0' as int
  }

  /** `int(s)` for a non-empty string of ASCII digits. */
  function ParseDigits(s: string): nat
    requires AllDigits(s)
  {
    if s == [] then 0 else 10 * ParseDigits(s[..|s| - 1]) + DigitValue(s[|s| - 1])
  }

  /** `str(n)` for a natural number: decimal, without leading zeros. */
  function NatToString(n: nat): (r: string)
    ensures |r| > 0 && AllDigits(r)
    ensures r[0] == '0' ==> n == 0
  {
    if n < 10 then [DigitChar(n)] else NatToString(n / 10) + [DigitChar(n % 10)]
  }

  /** `int(str(n)) == n`. */
  lemma {:induction false} ParseNatToString(n: nat)
    ensures ParseDigits(NatToString(n)) == n
  {
    if n >= 10 {
      var s := NatToString(n);
      assert s[..|s| - 1] == NatToString(n / 10);
      ParseNatToString(n / 10);
    }
  }

  /** The `%m` / `%d` field of `strftime`: two digits, zero-padded. */
  function Pad2(n: nat): (r: string)
    requires n < 100
    ensures |r| == 2 && AllDigits(r) && ParseDigits(r) == n
  {
    if n < 10 then
      var r := ['0', DigitChar(n)];
      assert r[..1] == ['0'] && ['0'][..0] == [];
      r
    else
      var r := NatToString(n);
      ParseNatToString(n);
      assert r == [DigitChar(n / 10), DigitChar(n % 10)];
      r
  }

  /** `int()` of a text followed by two more digits. */
  lemma ParseDigitsAppend2(a: string, b: string)
    requires AllDigits(a) && AllDigits(b) && |b| == 2
    ensures AllDigits(a + b) && ParseDigits(a + b) == 100 * ParseDigits(a) + ParseDigits(b)
  {
    var s := a + b;
    var t := a + [b[0]];
    assert s[..|s| - 1] == t && s[|s| - 1] == b[1];
    assert t[..|t| - 1] == a && t[|t| - 1] == b[0];
    assert b[..1] == [b[0]] && [b[0]][..0] == [];
    var pa, d0, d1 := ParseDigits(a), DigitValue(b[0]), DigitValue(b[1]);
    assert ParseDigits(t) == 10 * pa + d0;
    assert ParseDigits(s) == 10 * (10 * pa + d0) + d1;
    assert ParseDigits([b[0]]) == d0;
    assert b[..|b| - 1] == [b[0]] && b[|b| - 1] == b[1];
    assert ParseDigits(b) == 10 * d0 + d1;
  }

  /** The `%Y` field of `strftime`: four digits, zero-padded. */
  function Pad4(n: nat): (r: string)
    requires n < 10000
    ensures |r| == 4 && AllDigits(r) && ParseDigits(r) == n
  {
    ParseDigitsAppend2(Pad2(n / 100), Pad2(n % 100));
    Pad2(n / 100) + Pad2(n % 100)
  }

  // ---------------------------------------------------------------------
  // str.lower() and str.capitalize()
  // ---------------------------------------------------------------------

  /** Lower-casing of one character. ASCII capitals become ASCII small
      letters; the two non-ASCII characters whose lower-case form contains an
      ASCII letter (KELVIN SIGN and LATIN CAPITAL LETTER I WITH DOT ABOVE) are
      mapped as Python maps them; every other character is kept as it is. */
  function LowerChar(c: char): string {
    if 'A' <= c <= 'Z' then [(c as int + 32) as char]
    else if c == '\U{212A}' then "k"
    else if c == '\U{0130}' then "i\U{0307}"
    else [c]
  }

  /** A character that `LowerChar` changes. */
  predicate HasLowerForm(c: char) {
    'A' <= c <= 'Z' || c == '\U{212A}' || c == '\U{0130}'
  }

  predicate IsAsciiCapital(c: char) {
    'A' <= c <= 'Z'
  }

  /** The lower-case form of a character whose form is one character (every
      character but U+0130). */
  function LowerOne(c: char): char {
    if 'A' <= c <= 'Z' then (c as int + 32) as char
    else if c == '\U{212A}' then 'k'
    else c
  }

  /** `s.lower()`: no ASCII capital is left, nothing gets shorter, and a
      text without a character that has a lower-case form is unchanged.
      Without U+0130, the only character whose lower-case form is two
      characters long, the text keeps its length and each character is
      lower-cased in place. */
  function Lower(s: string): (r: string)
    ensures |r| >= |s|
    ensures forall k :: 0 <= k < |r| ==> !IsAsciiCapital(r[k])
    ensures (forall k :: 0 <= k < |s| ==> !HasLowerForm(s[k])) ==> r == s
    ensures (forall k :: 0 <= k < |s| ==> s[k] != '\U{0130}') ==>
      |r| == |s| && forall k :: 0 <= k < |s| ==> r[k] == LowerOne(s[k])
  {
    if s == [] then [] else LowerChar(s[0]) + Lower(s[1..])
  }

  function UpperChar(c: char): char {
    if 'a' <= c <= 'z' then (c as int - 32) as char else c
  }

  /** `s.capitalize()`: first character upper-cased, the rest lower-cased. */
  function Capitalize(s: string): (r: string)
    ensures |r| >= |s| && (r == [] <==> s == [])
    ensures s != [] && 'a' <= s[0] <= 'z' ==> IsAsciiCapital(r[0]) && r[0] as int == s[0] as int - 32
    ensures s != [] && !('a' <= s[0] <= 'z') ==> r[0] == s[0]
    ensures forall k :: 1 <= k < |r| ==> !IsAsciiCapital(r[k])
    ensures (forall k :: 1 <= k < |s| ==> s[k] != '\U{0130}') ==>
      |r| == |s| && forall k :: 1 <= k < |s| ==> r[k] == LowerOne(s[k])
  {
    if s == [] then [] else [UpperChar(s[0])] + Lower(s[1..])
  }
}
