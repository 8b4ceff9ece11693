/**
 * The table of contents of a benefit page (components/BenefitMarkdownPage.tsx):
 * heading slugs, the headings picked out of the markdown, and the section that
 * is active before any scrolling.
 */
module BenefitMarkdown {
  import opened Wrappers
  import opened Text
  import opened Sequences

  // ----- slugs --------------------------------------------------------------

  /** The precomposed Hangul syllables, `가` to `힣`. */
  predicate IsHangulSyllable(c: char) {
    '\U{AC00}' <= c <= '\U{D7A3}'
  }

  /** The class `[\w가-힣\s-]` of characters that survive into a slug. */
  predicate IsSlugSource(c: char) {
    IsWordChar(c) || IsHangulSyllable(c) || IsSpace(c) || c == '-'
  }

  /** A character a finished slug may contain. */
  predicate IsSlugChar(c: char) {
    (IsWordChar(c) && !IsUpperAscii(c)) || IsHangulSyllable(c) || c == '-'
  }

  /** `.replace(/[^\w가-힣\s-]/g, '')`. */
  function KeepSlugChars(s: string): (r: string)
    ensures |r| <= |s|
    ensures forall i :: 0 <= i < |r| ==> IsSlugSource(r[i])
    ensures forall c :: c in r ==> c in s
  {
    if |s| == 0 then ""
    else if IsSlugSource(s[0]) then [s[0]] + KeepSlugChars(s[1..])
    else KeepSlugChars(s[1..])
  }

  /**
   * The removal works character by character: together these two facts pin the
   * result down as the input with every other character deleted.
   */
  lemma {:induction false} KeepSlugCharsAppend(a: string, b: string)
    ensures KeepSlugChars(a + b) == KeepSlugChars(a) + KeepSlugChars(b)
  {
    if |a| == 0 {
      assert a + b == b;
    } else {
      assert (a + b)[0] == a[0];
      assert (a + b)[1..] == a[1..] + b;
      KeepSlugCharsAppend(a[1..], b);
    }
  }

  lemma KeepSlugCharsOne(c: char)
    ensures KeepSlugChars([c]) == if IsSlugSource(c) then [c] else []
  {
    assert [c][1..] == [];
  }

  /** A string made of slug characters only is kept whole. */
  lemma {:induction false} KeepSlugCharsAll(s: string)
    requires forall i :: 0 <= i < |s| ==> IsSlugSource(s[i])
    ensures KeepSlugChars(s) == s
  {
    if |s| > 0 {
      assert IsSlugSource(s[0]);
      KeepSlugCharsAll(s[1..]);
      assert s == [s[0]] + s[1..];
    }
  }

  /**
   * `.replace(/\s+/g, '-')`, read left to right: `inRun` says whether the previous
   * character was white space, in which case a hyphen has already been written
   * for the run.
   */
  function Collapse(s: string, inRun: bool): string {
    if |s| == 0 then ""
    else if IsSpace(s[0]) then (if inRun then "" else "-") + Collapse(s[1..], true)
    else [s[0]] + Collapse(s[1..], false)
  }

  /** Collapsing leaves no white space and only adds hyphens. */
  lemma {:induction false} CollapseShape(s: string, inRun: bool)
    ensures NoSpace(Collapse(s, inRun))
    ensures forall c :: c in Collapse(s, inRun) ==> c == '-' || (c in s && !IsSpace(c))
  {
    if |s| > 0 {
      CollapseShape(s[1..], IsSpace(s[0]));
      assert forall c :: c in s[1..] ==> c in s;
    }
  }

  /** Every maximal run of white space becomes one hyphen. */
  function CollapseSpaces(s: string): (r: string)
    ensures NoSpace(r)
    ensures forall c :: c in r ==> c == '-' || (c in s && !IsSpace(c))
  {
    CollapseShape(s, false);
    Collapse(s, false)
  }

  /** Text without white space passes through unchanged. */
  lemma {:induction false} CollapseNoSpace(s: string, inRun: bool)
    requires NoSpace(s)
    ensures Collapse(s, inRun) == s
  {
    if |s| > 0 {
      assert !IsSpace(s[0]);
      CollapseNoSpace(s[1..], false);
      assert s == [s[0]] + s[1..];
    }
  }

  lemma {:induction false} CollapsePrefix(a: string, rest: string)
    requires NoSpace(a)
    ensures Collapse(a + rest, false) == a + Collapse(rest, false)
  {
    if |a| > 0 {
      var x := a + rest;
      assert x[0] == a[0] && !IsSpace(x[0]);
      assert x[1..] == a[1..] + rest;
      assert Collapse(x, false) == [a[0]] + Collapse(a[1..] + rest, false);
      CollapsePrefix(a[1..], rest);
      assert a == [a[0]] + a[1..];
    } else {
      assert a + rest == rest;
    }
  }

  lemma {:induction false} CollapseInRun(w: string, b: string)
    requires AllSpace(w)
    requires |b| > 0 ==> !IsSpace(b[0])
    ensures Collapse(w + b, true) == Collapse(b, false)
  {
    if |w| > 0 {
      assert IsSpace(w[0]);
      assert (w + b)[0] == w[0];
      assert (w + b)[1..] == w[1..] + b;
      CollapseInRun(w[1..], b);
    } else {
      assert w + b == b;
    }
  }

  /** Text without white space, then a white-space run, then text starting with a non-space: the run becomes one `-`. */
  lemma CollapseRun(a: string, w: string, b: string)
    requires NoSpace(a) && |w| > 0 && AllSpace(w)
    requires |b| > 0 ==> !IsSpace(b[0])
    ensures CollapseSpaces(a + w + b) == a + "-" + CollapseSpaces(b)
  {
    assert a + w + b == a + (w + b);
    CollapsePrefix(a, w + b);
    assert (w + b)[0] == w[0];
    assert (w + b)[1..] == w[1..] + b;
    CollapseInRun(w[1..], b);
  }

  /**
   * `toLowerCase` of one character, as far as a slug can tell. Since `\w` is
   * ASCII, only the case mappings that end in an ASCII letter can reach a slug:
   * those of the ASCII capitals, of the Kelvin sign (to `k`) and of the capital
   * I with dot above (to `i` and a combining dot above). Every other case
   * mapping takes a letter outside `[\w가-힣\s-]` to another letter outside it,
   * so the slug drops it either way.
   */
  function SlugLowerChar(c: char): string {
    if c == '\U{0130}' then "i\U{0307}"
    else if c == '\U{212A}' then "k"
    else [LowerChar(c)]
  }

  /** `toLowerCase` on the characters that can reach a slug, one character at a time. */
  function SlugLower(s: string): (r: string)
    ensures forall c :: c in r ==> !IsUpperAscii(c)
  {
    if |s| == 0 then "" else SlugLowerChar(s[0]) + SlugLower(s[1..])
  }

  lemma {:induction false} SlugLowerAppend(a: string, b: string)
    ensures SlugLower(a + b) == SlugLower(a) + SlugLower(b)
  {
    if |a| == 0 {
      assert a + b == b;
    } else {
      assert (a + b)[0] == a[0];
      assert (a + b)[1..] == a[1..] + b;
      SlugLowerAppend(a[1..], b);
      assert SlugLower(a + b) == SlugLowerChar(a[0]) + (SlugLower(a[1..]) + SlugLower(b));
    }
  }

  /** Without the Kelvin sign and the dotted capital I, this is ASCII lower-casing. */
  lemma {:induction false} SlugLowerAscii(s: string)
    requires forall i :: 0 <= i < |s| ==> s[i] != '\U{0130}' && s[i] != '\U{212A}'
    ensures SlugLower(s) == Lower(s)
  {
    if |s| > 0 {
      SlugLowerAscii(s[1..]);
    }
  }

  /** Text of slug characters and spaces is already lower case. */
  lemma {:induction false} SlugLowerIdentity(s: string)
    requires forall i :: 0 <= i < |s| ==> IsSlugChar(s[i]) || s[i] == ' '
    ensures SlugLower(s) == s
  {
    if |s| > 0 {
      SlugLowerIdentity(s[1..]);
      assert s == [s[0]] + s[1..];
    }
  }

  /** `slugify`: lower-case, drop punctuation, trim, and turn white-space runs into `-`. */
  function Slugify(text: string): (r: string)
    ensures NoSpace(r)
  {
    CollapseSpaces(Trim(KeepSlugChars(SlugLower(text))))
  }

  /** The two non-ASCII capitals whose lower case is an ASCII letter keep that letter in the slug. */
  lemma NonAsciiCapitals()
    ensures Slugify("\U{212A}") == "k"
    ensures Slugify("\U{0130}") == "i"
  {
    assert SlugLower("\U{212A}") == "k";
    KeepSlugCharsAll("k");
    TrimTrimmed("k");
    CollapseNoSpace("k", false);
    assert SlugLower("\U{0130}") == "i\U{0307}";
    assert KeepSlugChars("i\U{0307}") == "i";
    TrimTrimmed("i");
    CollapseNoSpace("i", false);
  }

  /** A string without any character of `[\w가-힣\s-]` leaves nothing behind. */
  lemma {:induction false} KeepSlugCharsNone(s: string)
    requires forall i :: 0 <= i < |s| ==> !IsSlugSource(s[i])
    ensures KeepSlugChars(s) == ""
  {
    if |s| > 0 {
      KeepSlugCharsNone(s[1..]);
    }
  }

  lemma TrimMembers(s: string)
    ensures forall c :: c in Trim(s) ==> c in s
  {
    var k := TrimSlice(s);
  }

  /** A slug holds only lower-case word characters, Hangul syllables and hyphens. */
  lemma SlugifyChars(text: string)
    ensures forall i :: 0 <= i < |Slugify(text)| ==> IsSlugChar(Slugify(text)[i])
  {
    var low := SlugLower(text);
    var kept := KeepSlugChars(low);
    TrimMembers(kept);
    forall i | 0 <= i < |Slugify(text)| ensures IsSlugChar(Slugify(text)[i]) {
      var c := Slugify(text)[i];
      if c != '-' {
        assert c in kept;
        var j :| 0 <= j < |low| && low[j] == c;
      }
    }
  }

  /** Slugifying a slug leaves it unchanged. */
  lemma SlugifyIdempotent(text: string)
    ensures Slugify(Slugify(text)) == Slugify(text)
  {
    var r := Slugify(text);
    SlugifyChars(text);
    SlugLowerIdentity(r);
    KeepSlugCharsAll(r);
    TrimNoSpace(r);
    CollapseNoSpace(r, false);
  }

  lemma SlugLowerOne(p: char)
    ensures SlugLower([p]) == SlugLowerChar(p)
  {
    assert [p][1..] == [];
  }

  /** The lower-cased, filtered text around a character that leaves nothing behind. */
  lemma KeptAround(a: string, p: char, b: string)
    requires forall i :: 0 <= i < |SlugLowerChar(p)| ==> !IsSlugSource(SlugLowerChar(p)[i])
    ensures KeepSlugChars(SlugLower(a + [p] + b)) == KeepSlugChars(SlugLower(a + b))
  {
    var la, lp, lb := SlugLower(a), SlugLowerChar(p), SlugLower(b);
    SlugLowerAppend(a + [p], b);
    SlugLowerAppend(a, [p]);
    SlugLowerOne(p);
    assert SlugLower(a + [p] + b) == (la + lp) + lb;
    SlugLowerAppend(a, b);
    KeepSlugCharsAppend(la + lp, lb);
    KeepSlugCharsAppend(la, lp);
    KeepSlugCharsNone(lp);
    KeepSlugCharsAppend(la, lb);
    assert KeepSlugChars(la) + "" == KeepSlugChars(la);
  }

  /** A character whose lower case holds nothing of `[\w가-힣\s-]` makes no difference to the slug. */
  lemma SlugIgnoresPunctuation(a: string, p: char, b: string)
    requires forall i :: 0 <= i < |SlugLowerChar(p)| ==> !IsSlugSource(SlugLowerChar(p)[i])
    ensures Slugify(a + [p] + b) == Slugify(a + b)
  {
    KeptAround(a, p, b);
  }

  /** A non-empty word made of slug characters. */
  predicate IsSlugWord(w: string) {
    |w| > 0 && forall i :: 0 <= i < |w| ==> IsSlugChar(w[i])
  }

  lemma {:induction false} JoinHead(words: seq<string>, sep: string)
    requires |words| >= 1 && |words[0]| > 0
    ensures |Join(words, sep)| > 0 && Join(words, sep)[0] == words[0][0]
  {
  }

  lemma {:induction false} JoinLast(words: seq<string>, sep: string)
    requires |words| >= 1 && |words[|words| - 1]| > 0
    ensures |Join(words, sep)| > 0
    ensures Join(words, sep)[|Join(words, sep)| - 1] == words[|words| - 1][|words[|words| - 1]| - 1]
  {
    if |words| > 1 {
      JoinLast(words[1..], sep);
    }
  }

  /** Words joined by single spaces hold only slug characters and spaces. */
  lemma {:induction false} JoinWordsChars(words: seq<string>)
    requires forall k :: 0 <= k < |words| ==> IsSlugWord(words[k])
    ensures forall i :: 0 <= i < |Join(words, " ")| ==> IsSlugChar(Join(words, " ")[i]) || Join(words, " ")[i] == ' '
  {
    if |words| > 1 {
      JoinWordsChars(words[1..]);
      var j := Join(words, " ");
      var rest := Join(words[1..], " ");
      assert j == words[0] + " " + rest;
      forall i | 0 <= i < |j| ensures IsSlugChar(j[i]) || j[i] == ' ' {
        if i < |words[0]| {
          assert j[i] == words[0][i];
        } else if i > |words[0]| {
          assert j[i] == rest[i - |words[0]| - 1];
        }
      }
    } else if |words| == 1 {
      assert IsSlugWord(words[0]);
    }
  }

  /** Slug words joined by single spaces collapse to the same words joined by hyphens. */
  lemma {:induction false} CollapseWords(words: seq<string>)
    requires |words| >= 1
    requires forall k :: 0 <= k < |words| ==> IsSlugWord(words[k])
    ensures CollapseSpaces(Join(words, " ")) == Join(words, "-")
  {
    assert IsSlugWord(words[0]);
    if |words| == 1 {
      CollapseNoSpace(words[0], false);
    } else {
      var rest := words[1..];
      assert IsSlugWord(rest[0]);
      JoinHead(rest, " ");
      CollapseRun(words[0], " ", Join(rest, " "));
      CollapseWords(rest);
    }
  }

  /** Text already made of slug characters and single inner spaces only has its spaces collapsed. */
  lemma SlugifyClean(s: string)
    requires forall i :: 0 <= i < |s| ==> IsSlugChar(s[i]) || s[i] == ' '
    requires |s| > 0 ==> IsSlugChar(s[0]) && IsSlugChar(s[|s| - 1])
    ensures Slugify(s) == CollapseSpaces(s)
  {
    SlugLowerIdentity(s);
    forall i | 0 <= i < |s| ensures IsSlugSource(s[i]) {
      assert IsSlugChar(s[i]) || s[i] == ' ';
    }
    KeepSlugCharsAll(s);
    if |s| > 0 {
      assert !IsSpace(s[0]) && !IsSpace(s[|s| - 1]);
    }
    TrimTrimmed(s);
  }

  /** A title that is already lower-case words separated by single spaces slugs to those words joined by hyphens. */
  lemma SlugifyWords(words: seq<string>)
    requires |words| >= 1
    requires forall k :: 0 <= k < |words| ==> IsSlugWord(words[k])
    ensures Slugify(Join(words, " ")) == Join(words, "-")
  {
    JoinWordsChars(words);
    assert IsSlugWord(words[0]) && IsSlugWord(words[|words| - 1]);
    JoinHead(words, " ");
    JoinLast(words, " ");
    SlugifyClean(Join(words, " "));
    CollapseWords(words);
  }

  // ----- headings -----------------------------------------------------------

  /** A heading line as matched: its level and its trimmed text. */
  datatype Heading = Heading(level: nat, text: string)

  /** One table-of-contents entry: heading level, heading text and anchor id. */
  datatype TocEntry = TocEntry(level: nat, text: string, id: string)

  /** The entry pushed for a heading: its id is the slug of its text. */
  function EntryOf(hd: Heading): TocEntry {
    TocEntry(hd.level, hd.text, Slugify(hd.text))
  }

  predicate NoLineTerminator(s: string) {
    forall i :: 0 <= i < |s| ==> !IsLineTerminator(s[i])
  }

  /** Some character of `s` is not a line terminator, so `.` can match it. */
  predicate HasNonTerminator(s: string) {
    |s| > 0 && (!IsLineTerminator(s[0]) || HasNonTerminator(s[1..]))
  }

  lemma {:induction false} NonTerminatorAt(s: string) returns (i: nat)
    requires HasNonTerminator(s)
    ensures i < |s| && !IsLineTerminator(s[i])
  {
    if IsLineTerminator(s[0]) {
      var j := NonTerminatorAt(s[1..]);
      i := j + 1;
    } else {
      i := 0;
    }
  }

  lemma {:induction false} NonTerminatorFrom(s: string, i: nat)
    requires i < |s| && !IsLineTerminator(s[i])
    ensures HasNonTerminator(s)
  {
    if i > 0 {
      NonTerminatorFrom(s[1..], i - 1);
    }
  }

  /** The line starts with `h` hash marks. */
  predicate HashRun(line: string, h: nat) {
    h <= |line| && forall i :: 0 <= i < h ==> line[i] == '#'
  }

  /**
   * The tail `\s+(.+?)\s*$` of the heading pattern, matched against what follows the
   * hash marks; the result is the captured text after `trim()`. The lazy group may
   * not span a line terminator (`.` does not match one), so a line whose trimmed
   * text holds one does not match; when the tail is all white space, the group can
   * still capture one white-space character that is not a line terminator.
   */
  function HeadingText(rest: string): (r: Option<string>)
    ensures r.Some? ==> |rest| > 0 && IsSpace(rest[0])
    ensures r.Some? ==> NoLineTerminator(r.value)
    ensures r.Some? ==> r.value == Trim(rest)
  {
    if |rest| == 0 || !IsSpace(rest[0]) then None
    else
      var t := Trim(rest);
      if |t| > 0 then
        if NoLineTerminator(t) then Some(t) else None
      else if HasNonTerminator(rest[1..]) then Some(t)
      else None
  }

  /**
   * The pattern `/^(#{2,3})\s+(.+?)\s*$/` read left to right, `hashes` being the
   * number of `#` consumed so far. The greedy marker stops at three; backing off
   * to fewer cannot help then, because the tail would start with a `#` rather than
   * with white space, so a fourth `#` or a line with fewer than two fails.
   */
  function MatchFrom(rest: string, hashes: nat): (r: Option<Heading>)
    requires hashes <= 3
    ensures r.Some? ==> 2 <= r.value.level <= 3
    ensures r.Some? ==> NoLineTerminator(r.value.text)
    decreases |rest|
  {
    if |rest| > 0 && rest[0] == '#' then
      if hashes == 3 then None else MatchFrom(rest[1..], hashes + 1)
    else if hashes < 2 then None
    else
      match HeadingText(rest)
      case None => None
      case Some(t) => Some(Heading(hashes, t))
  }

  /** One line of `extractToc`: the heading it holds, if the pattern matches. */
  function TocLine(line: string): (r: Option<Heading>)
    ensures r.Some? ==> 2 <= r.value.level <= 3
    ensures r.Some? ==> NoLineTerminator(r.value.text)
  {
    MatchFrom(line, 0)
  }

  /**
   * The tail of the pattern read declaratively: a non-empty run of white space up
   * to `w`, the captured text `rest[w..c]` (at least one character, none a line
   * terminator), and only white space after it.
   */
  ghost predicate TextSplit(rest: string, w: nat, c: nat) {
    && 0 < w < c <= |rest|
    && AllSpace(rest[..w])
    && NoLineTerminator(rest[w..c])
    && AllSpace(rest[c..])
  }

  /** The whole pattern read declaratively: `h` hash marks, then the tail. */
  ghost predicate HeadingSplit(line: string, h: nat, w: nat, c: nat) {
    && 2 <= h <= 3 && HashRun(line, h)
    && h <= w && h <= c
    && TextSplit(line[h..], w - h, c - h)
  }

  lemma SplitTrim(rest: string, w: nat, c: nat)
    requires TextSplit(rest, w, c)
    ensures Trim(rest) == Trim(rest[w..c])
  {
    assert rest == rest[..w] + rest[w..c] + rest[c..];
    TrimPadded(rest[..w], rest[w..c], rest[c..]);
  }

  lemma TrimKeepsNoTerminator(b: string)
    requires NoLineTerminator(b)
    ensures NoLineTerminator(Trim(b))
  {
    var k := TrimSlice(b);
    var t := Trim(b);
    forall i | 0 <= i < |t| ensures !IsLineTerminator(t[i]) {
      assert t[i] == b[k + i];
    }
  }

  /** Whatever split the regular expression settles on, the captured text trims to the same value. */
  lemma SplitGivesText(rest: string, w: nat, c: nat)
    requires TextSplit(rest, w, c)
    ensures HeadingText(rest) == Some(Trim(rest[w..c]))
  {
    SplitTrim(rest, w, c);
    TrimKeepsNoTerminator(rest[w..c]);
    assert IsSpace(rest[..w][0]);
    assert !IsLineTerminator(rest[w..c][0]);
    assert rest[w..c][0] == rest[w];
    NonTerminatorFrom(rest[1..], w - 1);
  }

  /** When the trimmed tail is non-empty, it is the captured text of a split. */
  lemma TrimmedTextSplit(rest: string) returns (w: nat, c: nat)
    requires HeadingText(rest).Some? && |Trim(rest)| > 0
    ensures TextSplit(rest, w, c)
  {
    var t := Trim(rest);
    var k := TrimSlice(rest);
    assert t[0] == rest[k];
    w, c := k, k + |t|;
    assert rest[w..c] == t;
  }

  lemma {:induction false} AllSpaceJoin(a: string, b: string)
    requires AllSpace(a) && AllSpace(b)
    ensures AllSpace(a + b)
  {
    forall j | 0 <= j < |a + b| ensures IsSpace((a + b)[j]) {
      if j < |a| {
        assert (a + b)[j] == a[j];
      } else {
        assert (a + b)[j] == b[j - |a|];
      }
    }
  }

  /** When the tail is all white space, one non-terminator character of it is the captured text. */
  lemma BlankTextSplit(rest: string) returns (w: nat, c: nat)
    requires HeadingText(rest).Some? && |Trim(rest)| == 0
    ensures TextSplit(rest, w, c)
  {
    var k := TrimSlice(rest);
    assert rest == rest[..k] + rest[k..];
    AllSpaceJoin(rest[..k], rest[k..]);
    var j := NonTerminatorAt(rest[1..]);
    var i := j + 1;
    w, c := i, i + 1;
    assert rest[w..c] == [rest[i]];
  }

  /** `HeadingText` matches exactly when the tail has a split of the pattern's shape. */
  lemma HeadingTextIsRegexMatch(rest: string)
    ensures HeadingText(rest).Some? <==> exists w: nat, c: nat :: TextSplit(rest, w, c)
    ensures forall w: nat, c: nat :: TextSplit(rest, w, c) ==> HeadingText(rest) == Some(Trim(rest[w..c]))
  {
    if HeadingText(rest).Some? {
      var w, c := TextSplitExists(rest);
    }
    forall w: nat, c: nat | TextSplit(rest, w, c)
      ensures HeadingText(rest) == Some(Trim(rest[w..c]))
    {
      SplitGivesText(rest, w, c);
    }
  }

  lemma {:induction false} MatchFromHashes(rest: string, k: nat, h: nat)
    requires k <= h <= 3 && 2 <= h
    requires HashRun(rest, h - k)
    requires HeadingText(rest[h - k..]).Some?
    ensures MatchFrom(rest, k) == Some(Heading(h, HeadingText(rest[h - k..]).value))
    decreases h - k
  {
    if k < h {
      assert rest[0] == '#';
      assert rest[1..][h - (k + 1)..] == rest[h - k..];
      MatchFromHashes(rest[1..], k + 1, h);
    } else {
      assert rest[0..] == rest;
    }
  }

  lemma {:induction false} MatchFromParts(rest: string, k: nat) returns (n: nat)
    requires k <= 3 && MatchFrom(rest, k).Some?
    ensures k + n == MatchFrom(rest, k).value.level
    ensures HashRun(rest, n)
    ensures HeadingText(rest[n..]) == Some(MatchFrom(rest, k).value.text)
    decreases |rest|
  {
    if |rest| > 0 && rest[0] == '#' {
      var m := MatchFromParts(rest[1..], k + 1);
      n := m + 1;
      assert rest[1..][m..] == rest[n..];
      forall i | 0 <= i < n ensures rest[i] == '#' {
        if i > 0 {
          assert rest[i] == rest[1..][i - 1];
        }
      }
    } else {
      n := 0;
      assert rest[0..] == rest;
    }
  }

  /** A marker followed by a matching tail yields the entry, whichever of the two lengths it has. */
  lemma TocLineOfText(line: string, h: nat, t: string)
    requires 2 <= h <= 3 && HashRun(line, h)
    requires HeadingText(line[h..]) == Some(t)
    ensures TocLine(line) == Some(Heading(h, t))
  {
    MatchFromHashes(line, 0, h);
  }

  /** Dropping the hash marks turns a split of the whole pattern into a split of the tail. */
  lemma TailOfSplit(line: string, h: nat, w: nat, c: nat)
    requires HeadingSplit(line, h, w, c)
    ensures TextSplit(line[h..], w - h, c - h)
    ensures line[h..][w - h..c - h] == line[w..c]
  {
  }

  lemma SplitGivesHeadingText(line: string, h: nat, w: nat, c: nat)
    requires HeadingSplit(line, h, w, c)
    ensures HeadingText(line[h..]) == Some(Trim(line[w..c]))
  {
    TailOfSplit(line, h, w, c);
    SplitGivesText(line[h..], w - h, c - h);
  }

  /** A split of the whole pattern fixes the level and, through the tail, the text. */
  lemma SplitGivesTocLine(line: string, h: nat, w: nat, c: nat)
    requires HeadingSplit(line, h, w, c)
    ensures TocLine(line) == Some(Heading(h, Trim(line[w..c])))
  {
    SplitGivesHeadingText(line, h, w, c);
    TocLineOfText(line, h, Trim(line[w..c]));
  }

  lemma TextSplitExists(rest: string) returns (w: nat, c: nat)
    requires HeadingText(rest).Some?
    ensures TextSplit(rest, w, c)
  {
    if |Trim(rest)| > 0 {
      w, c := TrimmedTextSplit(rest);
    } else {
      w, c := BlankTextSplit(rest);
    }
  }

  lemma LiftSplit(line: string, h: nat, w: nat, c: nat) returns (w': nat, c': nat)
    requires 2 <= h <= 3 && HashRun(line, h)
    requires TextSplit(line[h..], w, c)
    ensures HeadingSplit(line, h, w', c')
  {
    w', c' := h + w, h + c;
  }

  /** A line `TocLine` accepts has a split of the whole pattern. */
  lemma TocLineGivesSplit(line: string) returns (h: nat, w: nat, c: nat)
    requires TocLine(line).Some?
    ensures HeadingSplit(line, h, w, c)
  {
    h := MatchFromParts(line, 0);
    var w', c' := TextSplitExists(line[h..]);
    w, c := LiftSplit(line, h, w', c');
  }

  /** `TocLine` accepts exactly the lines the regular expression matches, with the entry built from the match. */
  lemma TocLineIsRegexMatch(line: string)
    ensures TocLine(line).Some? <==> exists h: nat, w: nat, c: nat :: HeadingSplit(line, h, w, c)
    ensures forall h: nat, w: nat, c: nat :: HeadingSplit(line, h, w, c) ==>
      TocLine(line) == Some(Heading(h, Trim(line[w..c])))
  {
    if TocLine(line).Some? {
      var h, w, c := TocLineGivesSplit(line);
    }
    forall h: nat, w: nat, c: nat | HeadingSplit(line, h, w, c)
      ensures TocLine(line) == Some(Heading(h, Trim(line[w..c])))
    {
      SplitGivesTocLine(line, h, w, c);
    }
  }

  /** A worked example: a level-two heading with a trailing carriage return. */
  lemma TocLineOfHeading()
    ensures TocLine("## 지원 대상\r") == Some(Heading(2, "지원 대상"))
    ensures EntryOf(TocLine("## 지원 대상\r").value) == TocEntry(2, "지원 대상", "지원-대상")
  {
    var line := "## 지원 대상\r";
    HeadingTextOfExample();
    assert line[2..] == " 지원 대상\r";
    TocLineOfText(line, 2, "지원 대상");
    HeadingSlug();
  }

  lemma HeadingTextOfExample()
    ensures HeadingText(" 지원 대상\r") == Some("지원 대상")
  {
    var rest := " 지원 대상\r";
    assert rest[1..6] == "지원 대상";
    assert TextSplit(rest, 1, 6);
    SplitGivesText(rest, 1, 6);
    TrimTrimmed("지원 대상");
  }

  lemma HeadingSlug()
    ensures Slugify("지원 대상") == "지원-대상"
  {
    var words := ["지원", "대상"];
    assert IsSlugWord(words[0]) && IsSlugWord(words[1]);
    SlugifyWords(words);
    assert Join(words, " ") == "지원 대상";
    assert Join(words, "-") == "지원-대상";
  }

  /** A fourth `#` makes the line ordinary text. */
  lemma FourHashesIsNoHeading(rest: string)
    ensures TocLine("####" + rest) == None
  {
    var line := "####" + rest;
    var l3 := line[1..][1..][1..];
    assert l3 == "#" + rest;
    assert MatchFrom(l3, 3) == None;
    assert MatchFrom(line[1..][1..], 2) == None;
    assert MatchFrom(line[1..], 1) == None;
  }

  // ----- the table of contents ----------------------------------------------

  function TocOfLines(lines: seq<string>): (r: seq<TocEntry>)
    ensures |r| <= |lines|
    ensures forall k :: 0 <= k < |r| ==> 2 <= r[k].level <= 3 && r[k].id == Slugify(r[k].text)
  {
    if |lines| == 0 then []
    else
      var here := match TocLine(lines[0]) case Some(hd) => [EntryOf(hd)] case None => [];
      here + TocOfLines(lines[1..])
  }

  /** The line is a heading whose entry is `e`. */
  predicate Yields(line: string, e: TocEntry) {
    TocLine(line).Some? && EntryOf(TocLine(line).value) == e
  }

  /** An entry is in the table exactly when some line yields it. */
  lemma {:induction false} TocOfLinesMembers(lines: seq<string>, e: TocEntry)
    ensures e in TocOfLines(lines) <==> exists i :: 0 <= i < |lines| && Yields(lines[i], e)
  {
    if |lines| > 0 {
      TocOfLinesMembers(lines[1..], e);
      if exists i :: 1 <= i < |lines| && Yields(lines[i], e) {
        var i :| 1 <= i < |lines| && Yields(lines[i], e);
        assert lines[1..][i - 1] == lines[i];
      }
      if exists i :: 0 <= i < |lines| - 1 && Yields(lines[1..][i], e) {
        var i :| 0 <= i < |lines| - 1 && Yields(lines[1..][i], e);
        assert lines[1..][i] == lines[i + 1];
      }
    }
  }

  /** `extractToc`: one entry per heading line, in document order. */
  function ExtractToc(md: string): (r: seq<TocEntry>)
    ensures forall k :: 0 <= k < |r| ==> 2 <= r[k].level <= 3 && r[k].id == Slugify(r[k].text)
  {
    TocOfLines(Split(md, '\n'))
  }

  /** The entries of two runs of lines follow each other in the same order. */
  lemma {:induction false} TocOfLinesAppend(a: seq<string>, b: seq<string>)
    ensures TocOfLines(a + b) == TocOfLines(a) + TocOfLines(b)
  {
    if |a| > 0 {
      assert (a + b)[1..] == a[1..] + b;
      TocOfLinesAppend(a[1..], b);
      assert (a + b)[0] == a[0];
    } else {
      assert a + b == b;
    }
  }

  /** The table of contents of a document written as lines is computed line by line. */
  lemma ExtractTocOfLines(lines: seq<string>)
    requires |lines| >= 1
    requires forall i :: 0 <= i < |lines| ==> '\n' !in lines[i]
    ensures ExtractToc(Join(lines, "\n")) == TocOfLines(lines)
  {
    SplitJoin(lines, '\n');
  }

  /** `toc[0]?.id ?? ''`: the section marked active before any scrolling. */
  function InitialActiveId(toc: seq<TocEntry>): (r: string)
    ensures |toc| == 0 ==> r == ""
    ensures |toc| > 0 ==> r == toc[0].id
  {
    if |toc| > 0 then toc[0].id else ""
  }

  /** The first active section is the slug of the first heading line; with no heading it is empty. */
  lemma {:induction false} InitialActiveIsFirstHeading(lines: seq<string>, j: nat)
    requires j <= |lines|
    requires forall i :: 0 <= i < j ==> TocLine(lines[i]).None?
    ensures j < |lines| && TocLine(lines[j]).Some? ==>
      InitialActiveId(TocOfLines(lines)) == Slugify(TocLine(lines[j]).value.text)
    ensures j == |lines| ==> InitialActiveId(TocOfLines(lines)) == ""
  {
    if j > 0 {
      assert TocLine(lines[0]).None?;
      assert TocOfLines(lines) == TocOfLines(lines[1..]);
      forall i | 0 <= i < j - 1 ensures TocLine(lines[1..][i]).None? {
        assert lines[1..][i] == lines[i + 1];
      }
      InitialActiveIsFirstHeading(lines[1..], j - 1);
    } else if |lines| > 0 && TocLine(lines[0]).Some? {
      assert TocOfLines(lines)[0] == EntryOf(TocLine(lines[0]).value);
    }
  }
}
