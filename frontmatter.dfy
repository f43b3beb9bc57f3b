/**
 * Splitting a note into its YAML frontmatter and its body, writing
 * frontmatter back, and choosing the title and categories of the post.
 * The YAML parser and serialiser are parameters.
 */
module Frontmatter {
  import opened Optional
  import opened Text
  import opened Values
  import opened Types

  // ---------------------------------------------------------------------
  // The frontmatter block: ^---\r?\n([\s\S]*?)\r?\n---\r?\n?
  // ---------------------------------------------------------------------

  predicate DashesAt(s: string, i: nat)
  {
    i + 3 <= |s| && s[i] == '-' && s[i + 1] == '-' && s[i + 2] == '-'
  }

  /** A line feed followed by `---` starts at `i`. */
  predicate NewlineDashesAt(s: string, i: nat)
  {
    i < |s| && s[i] == '\n' && DashesAt(s, i + 1)
  }

  /** The closing delimiter `\r?\n---` starts at `i`. */
  predicate ClosingAt(s: string, i: nat)
  {
    NewlineDashesAt(s, i) || (i < |s| && s[i] == '\r' && NewlineDashesAt(s, i + 1))
  }

  /** `\n---` occurs nowhere in `s`. */
  predicate NoNewlineDashes(s: string)
  {
    forall i: nat :: i < |s| ==> !NewlineDashesAt(s, i)
  }

  /** The length of the opening `---\n` or `---\r\n`, if the text starts with one. */
  function Opening(s: string): (r: Option<nat>)
    ensures r.Some? ==> r.value <= |s| && DashesAt(s, 0)
  {
    if DashesAt(s, 0) && |s| >= 4 && s[3] == '\n' then Some(4)
    else if DashesAt(s, 0) && |s| >= 5 && s[3] == '\r' && s[4] == '\n' then Some(5)
    else None
  }

  /** The nearest closing delimiter at or after `from`. */
  function FindClosing(s: string, from: nat): (r: Option<nat>)
    ensures r.Some? ==> from <= r.value < |s| && ClosingAt(s, r.value)
    ensures r.Some? ==> forall j: nat :: from <= j < r.value ==> !ClosingAt(s, j)
    ensures r.None? ==> forall j: nat :: from <= j ==> !ClosingAt(s, j)
    decreases |s| - from
  {
    if from >= |s| then None
    else if ClosingAt(s, from) then Some(from)
    else FindClosing(s, from + 1)
  }

  /** The captured YAML text and the length of the whole match. */
  datatype Match = Match(yaml: string, length: nat)

  /**
   * The frontmatter match: the opening delimiter at the very start, the
   * shortest YAML text up to the first closing delimiter, then an optional
   * `\r` and an optional `\n`.
   */
  function MatchFrontmatter(s: string): (r: Option<Match>)
    ensures r.None? <==> Opening(s).None? || FindClosing(s, Opening(s).value).None?
    ensures r.Some? ==> r.value.length <= |s| && NoNewlineDashes(r.value.yaml)
  {
    match Opening(s)
    case None => None
    case Some(p) =>
      match FindClosing(s, p)
      case None => None
      case Some(q) =>
        var e := if s[q] == '\r' then q + 5 else q + 4;
        var e1 := if e < |s| && s[e] == '\r' then e + 1 else e;
        var e2 := if e1 < |s| && s[e1] == '\n' then e1 + 1 else e1;
        FirstClosingLeavesNoDashes(s, p, q);
        Some(Match(s[p..q], e2))
  }

  /** Since the first closing delimiter wins, the text before it holds no `\n---`. */
  lemma FirstClosingLeavesNoDashes(s: string, p: nat, q: nat)
    requires p <= q <= |s|
    requires forall j: nat :: p <= j < q ==> !ClosingAt(s, j)
    ensures NoNewlineDashes(s[p..q])
  {
    var y := s[p..q];
    forall i: nat | i < |y| ensures !NewlineDashesAt(y, i) {
      assert !ClosingAt(s, p + i);
    }
  }

  /** What the YAML parser did: it threw, or it produced a value. */
  datatype YamlResult = Threw | Parsed(value: Value)

  /** The frontmatter object a parsed value gives: itself if it is a truthy object (an array counts), else `{}`. */
  function ObjectOf(v: Value): (r: FrontmatterData)
    ensures !(v.Obj? || v.Arr?) ==> r == []
  {
    match v
    case Obj(fields) => fields
    case Arr(items) => IndexRecord(items)
    case _ => []
  }

  /**
   * `parseFrontmatter`: without a match, no frontmatter and the whole
   * content as body; with a match, the body is what follows it, and the
   * frontmatter is whatever object the YAML gives, `{}` when the parser
   * throws or gives no object.
   */
  function ParseFrontmatter(content: string, parse: string -> YamlResult): (r: (FrontmatterData, string))
    ensures MatchFrontmatter(content).None? ==> r == ([], content)
    ensures |r.1| <= |content| && r.1 == content[|content| - |r.1|..]
    ensures MatchFrontmatter(content).Some? && parse(MatchFrontmatter(content).value.yaml).Threw? ==> r.0 == []
    ensures MatchFrontmatter(content).Some? && parse(MatchFrontmatter(content).value.yaml).Parsed? ==>
      r.0 == ObjectOf(parse(MatchFrontmatter(content).value.yaml).value)
  {
    match MatchFrontmatter(content)
    case None => ([], content)
    case Some(m) =>
      var body := content[m.length..];
      match parse(m.yaml)
      case Threw => ([], body)
      case Parsed(v) => (ObjectOf(v), body)
  }

  /**
   * A block written as `---`, YAML text, `---` is read back exactly: the
   * YAML text is captured as written and the body starts right after the
   * closing line, provided the YAML text holds no `\n---` and does not end
   * in `\r`.
   */
  lemma MatchWritten(y: string, body: string)
    requires NoNewlineDashes(y)
    requires |y| == 0 || y[|y| - 1] != '\r'
    ensures MatchFrontmatter("---\n" + y + "\n---\n" + body) == Some(Match(y, |y| + 9))
  {
    var s := "---\n" + y + "\n---\n" + body;
    var q := 4 + |y|;
    assert Opening(s) == Some(4);
    assert ClosingAt(s, q);
    forall j: nat | 4 <= j < q ensures !ClosingAt(s, j) {
      assert s[j] == y[j - 4];
      assert !NewlineDashesAt(y, j - 4);
      assert j + 1 < q ==> !NewlineDashesAt(y, j - 3);
    }
    assert FindClosing(s, 4) == Some(q);
    assert s[4..q] == y;
  }

  /** `---` directly followed by `---` is not a frontmatter block when no later line starts with `---`. */
  lemma AdjacentDelimitersNotFrontmatter(b: string)
    requires '\n' !in b && !DashesAt(b, 0)
    ensures MatchFrontmatter("---\n---\n" + b).None?
  {
    var s := "---\n---\n" + b;
    forall j: nat | 4 <= j ensures !ClosingAt(s, j) {
      if j >= 8 && j < |s| {
        assert s[j] == b[j - 8];
        assert s[j] != '\n' by { assert b[j - 8] in b; }
        if j + 1 < |s| {
          assert s[j + 1] == b[j - 7];
          assert s[j + 1] != '\n' by { assert b[j - 7] in b; }
        }
      }
    }
  }

  /** The body a match leaves is exactly the content after the matched text. */
  lemma ParseKeepsBody(content: string, parse: string -> YamlResult)
    requires MatchFrontmatter(content).Some?
    ensures ParseFrontmatter(content, parse).1 == content[MatchFrontmatter(content).value.length..]
  {
  }

  // ---------------------------------------------------------------------
  // updateFrontmatter
  // ---------------------------------------------------------------------

  /**
   * `updateFrontmatter`: the frontmatter with `updates` spread over it,
   * serialised, between `---` lines, followed by the old body.
   */
  function UpdateFrontmatter(content: string, updates: FrontmatterData,
                             parse: string -> YamlResult, stringify: FrontmatterData -> string): (r: string)
    ensures EndsWith(r, ParseFrontmatter(content, parse).1)
    ensures StartsWith(r, "---\n")
  {
    var (fm, body) := ParseFrontmatter(content, parse);
    var r := "---\n" + stringify(Spread(fm, updates)) + "---\n" + body;
    assert r[|r| - |body|..] == body;
    r
  }

  /**
   * Reading an updated note back gives the spread frontmatter and the
   * unchanged body, when the serialiser's output ends in a newline, holds
   * no `\n---`, does not end in `\r\n`, and parses back to the object it
   * was made from.
   */
  lemma UpdateReadsBack(content: string, updates: FrontmatterData, y: string,
                        parse: string -> YamlResult, stringify: FrontmatterData -> string)
    requires stringify(Spread(ParseFrontmatter(content, parse).0, updates)) == y + "\n"
    requires NoNewlineDashes(y) && (|y| == 0 || y[|y| - 1] != '\r')
    requires parse(y) == Parsed(Obj(Spread(ParseFrontmatter(content, parse).0, updates)))
    ensures ParseFrontmatter(UpdateFrontmatter(content, updates, parse, stringify), parse)
         == (Spread(ParseFrontmatter(content, parse).0, updates), ParseFrontmatter(content, parse).1)
  {
    var (fm, body) := ParseFrontmatter(content, parse);
    WrittenShape(y, body);
    ParseWritten(y, body, Spread(fm, updates), parse);
  }

  lemma WrittenShape(y: string, body: string)
    ensures "---\n" + (y + "\n") + "---\n" + body == "---\n" + y + "\n---\n" + body
  {
    assert "\n" + "---\n" == "\n---\n";
  }

  /** A written block whose YAML text parses to an object gives that object and the body after it. */
  lemma ParseWritten(y: string, body: string, fm: FrontmatterData, parse: string -> YamlResult)
    requires NoNewlineDashes(y) && (|y| == 0 || y[|y| - 1] != '\r')
    requires parse(y) == Parsed(Obj(fm))
    ensures ParseFrontmatter("---\n" + y + "\n---\n" + body, parse) == (fm, body)
  {
    var s := "---\n" + y + "\n---\n" + body;
    MatchWritten(y, body);
    assert s[|y| + 9..] == body;
  }

  /** After an update, a key of `updates` has its new value and every other key its old one. */
  lemma UpdateOverrides(fm: FrontmatterData, updates: FrontmatterData, k: string)
    requires UniqueKeys(updates)
    ensures Get(Spread(fm, updates), k) == if HasKey(updates, k) then Get(updates, k) else Get(fm, k)
  {
    SpreadOverrides(fm, updates, k);
  }

  // ---------------------------------------------------------------------
  // extractTitle: /^#\s+(.+)$/m, then the file name without `.md`
  // ---------------------------------------------------------------------

  /** `^` in multiline mode: the start of the text or right after a line terminator. */
  predicate LineStart(s: string, i: nat)
  {
    i == 0 || (i <= |s| && IsLineTerminator(s[i - 1]))
  }

  /** The end of the run of white space (line terminators included) that starts at `k`. */
  function SpaceRunEnd(s: string, k: nat): (e: nat)
    requires k <= |s|
    ensures k <= e <= |s| && (e == |s| || !IsSpace(s[e]))
    ensures forall j :: k <= j < e ==> IsSpace(s[j])
    decreases |s| - k
  {
    if k < |s| && IsSpace(s[k]) then SpaceRunEnd(s, k + 1) else k
  }

  /** The end of the line that contains `k`: the next line terminator, or the end of the text. */
  function LineEnd(s: string, k: nat): (e: nat)
    requires k <= |s|
    ensures k <= e <= |s| && (e == |s| || IsLineTerminator(s[e]))
    ensures forall j :: k <= j < e ==> !IsLineTerminator(s[j])
    decreases |s| - k
  {
    if k < |s| && !IsLineTerminator(s[k]) then LineEnd(s, k + 1) else k
  }

  /** The last index in `[lo, hi)` that is not a line terminator. */
  function LastInLine(s: string, lo: nat, hi: nat): (r: Option<nat>)
    requires hi <= |s|
    ensures r.Some? ==> lo <= r.value < hi && !IsLineTerminator(s[r.value])
    ensures r.Some? ==> forall j :: r.value < j < hi ==> IsLineTerminator(s[j])
    ensures r.None? ==> forall j :: lo <= j < hi ==> IsLineTerminator(s[j])
    decreases hi
  {
    if hi <= lo then None
    else if !IsLineTerminator(s[hi - 1]) then Some(hi - 1)
    else LastInLine(s, lo, hi - 1)
  }

  /**
   * The capture of the heading pattern tried at `i`: a `#` at the start of
   * a line, white space (which may cross line ends), then the rest of a
   * line. The white space is taken as long as possible; only when it runs
   * to the end of the text does the match give some of it back.
   */
  function HeadingAt(s: string, i: nat): (r: Option<string>)
    ensures r.Some? ==> |r.value| > 0
    ensures r.Some? ==> i < |s| && s[i] == '#' && LineStart(s, i)
    ensures r.Some? ==> forall j :: 0 <= j < |r.value| ==> !IsLineTerminator(r.value[j])
  {
    if !(i < |s| && s[i] == '#' && LineStart(s, i)) then None
    else
      var e := SpaceRunEnd(s, i + 1);
      if e == i + 1 then None
      else if e < |s| then Some(s[e..LineEnd(s, e)])
      else match LastInLine(s, i + 2, e)
        case None => None
        case Some(k) => Some(s[k..LineEnd(s, k)])
  }

  /** `i` is the first position at or after `from` where the heading pattern matches. */
  predicate FirstMatchFrom(s: string, from: nat, i: nat)
  {
    from <= i < |s| && HeadingAt(s, i).Some? && forall j: nat :: from <= j < i ==> HeadingAt(s, j).None?
  }

  /** The heading pattern matches nowhere in `s`. */
  predicate NoHeading(s: string)
  {
    forall i: nat :: i < |s| ==> HeadingAt(s, i).None?
  }

  /** The first position at or after `from` where the heading pattern matches. */
  function FirstHeadingPos(s: string, from: nat): (r: Option<nat>)
    ensures r.Some? ==> FirstMatchFrom(s, from, r.value)
    ensures r.None? ==> forall i: nat :: from <= i ==> HeadingAt(s, i).None?
    decreases |s| - from
  {
    if from >= |s| then None
    else if HeadingAt(s, from).Some? then Some(from)
    else FirstHeadingPos(s, from + 1)
  }

  /** The capture of the first match at or after `from`. */
  function FirstHeadingFrom(s: string, from: nat): (r: Option<string>)
    ensures r.Some? ==> |r.value| > 0
    ensures r.Some? ==> exists i: nat :: FirstMatchFrom(s, from, i) && HeadingAt(s, i) == r
    ensures r.None? ==> forall i: nat :: from <= i ==> HeadingAt(s, i).None?
  {
    match FirstHeadingPos(s, from)
    case None => None
    case Some(i) => HeadingAt(s, i)
  }

  /** `/\.md$/` removed: only a `.md` at the very end goes. */
  function StripMd(name: string): (r: string)
    ensures EndsWith(name, ".md") ==> name == r + ".md"
    ensures !EndsWith(name, ".md") ==> r == name
  {
    if EndsWith(name, ".md") then name[..|name| - 3] else name
  }

  /**
   * `extractTitle`: a truthy frontmatter `title` as it is (whatever its
   * type), else the trimmed capture of the first position where the
   * heading pattern matches, else the file name without `.md`.
   */
  function ExtractTitle(fm: FrontmatterData, body: string, filename: string): (r: Value)
    ensures Truthy(Get(fm, "title")) ==> Some(r) == Get(fm, "title")
    ensures !Truthy(Get(fm, "title")) ==> r.Str?
    ensures !Truthy(Get(fm, "title")) ==>
      forall i: nat :: FirstMatchFrom(body, 0, i) ==> r == Str(Trim(HeadingAt(body, i).value))
    ensures !Truthy(Get(fm, "title")) && NoHeading(body) ==> r == Str(StripMd(filename))
    ensures !Truthy(Get(fm, "title")) && FirstHeadingFrom(body, 0).Some? ==> IsTrimmed(r.s)
  {
    var t := Get(fm, "title");
    if Truthy(t) then t.value
    else
      FirstHeadingSearch(body);
      match FirstHeadingFrom(body, 0)
      case Some(h) => Str(Trim(h))
      case None => Str(StripMd(filename))
  }

  /** The search finds the first matching position, and nothing exactly when no position matches. */
  lemma FirstHeadingSearch(s: string)
    ensures forall i: nat :: FirstMatchFrom(s, 0, i) ==> FirstHeadingFrom(s, 0) == HeadingAt(s, i)
    ensures NoHeading(s) ==> FirstHeadingFrom(s, 0).None?
  {
    forall i: nat | FirstMatchFrom(s, 0, i) ensures FirstHeadingFrom(s, 0) == HeadingAt(s, i) {
      FirstHeadingIs(s, 0, i);
    }
    if NoHeading(s) {
      NoHeadingFrom(s, 0);
    }
  }

  /** A position that matches, with no match before it from `from` on, is the one the search finds. */
  lemma {:induction false} FirstHeadingIs(s: string, from: nat, i: nat)
    requires FirstMatchFrom(s, from, i)
    ensures FirstHeadingPos(s, from) == Some(i)
    decreases i - from
  {
    if from < i {
      assert HeadingAt(s, from).None?;
      assert FirstMatchFrom(s, from + 1, i);
      FirstHeadingIs(s, from + 1, i);
    }
  }

  /** Where no position from `from` on starts a heading, there is none. */
  lemma {:induction false} NoHeadingFrom(s: string, from: nat)
    requires forall i: nat :: from <= i < |s| ==> HeadingAt(s, i).None?
    ensures FirstHeadingPos(s, from).None?
    decreases |s| - from
  {
    if from < |s| {
      NoHeadingFrom(s, from + 1);
    }
  }

  /** The capture of a heading whose text `t` starts right at index `k` and fills the line. */
  lemma LineAt(s: string, k: nat, t: string)
    requires k + |t| <= |s| && s[k..k + |t|] == t
    requires forall j :: 0 <= j < |t| ==> !IsLineTerminator(t[j])
    requires k + |t| == |s| || IsLineTerminator(s[k + |t|])
    ensures LineEnd(s, k) == k + |t|
  {
    forall j | k <= j < k + |t| ensures !IsLineTerminator(s[j]) {
      assert s[j] == t[j - k];
    }
  }

  /**
   * A line `#`, one white-space character, then text `t` that starts with no
   * white space and fills the line: the capture there is `t`.
   */
  lemma HeadingCapture(p: string, w: char, t: string, rest: string)
    requires |p| == 0 || IsLineTerminator(p[|p| - 1])
    requires IsSpace(w)
    requires |t| > 0 && !IsSpace(t[0])
    requires forall j :: 0 <= j < |t| ==> !IsLineTerminator(t[j])
    requires |rest| == 0 || IsLineTerminator(rest[0])
    ensures HeadingAt(p + ['#', w] + t + rest, |p|) == Some(t)
  {
    var s := p + ['#', w] + t + rest;
    var k := |p|;
    assert s[k] == '#' && s[k + 1] == w && s[k + 2] == t[0];
    assert LineStart(s, k) by {
      if k > 0 { assert s[k - 1] == p[k - 1]; }
    }
    assert SpaceRunEnd(s, k + 2) == k + 2;
    assert SpaceRunEnd(s, k + 1) == k + 2;
    assert s[k + 2..k + 2 + |t|] == t;
    assert k + 2 + |t| == |s| || s[k + 2 + |t|] == rest[0];
    LineAt(s, k + 2, t);
  }

  /**
   * `# T` after any lines that hold no `#` gives the trimmed `T`, when the
   * frontmatter has no truthy title: the first heading wins wherever it is.
   */
  lemma HeadingTitle(fm: FrontmatterData, body: string, p: string, t: string, rest: string, filename: string)
    requires !Truthy(Get(fm, "title"))
    requires body == p + "# " + t + rest
    requires '#' !in p && (|p| == 0 || IsLineTerminator(p[|p| - 1]))
    requires |t| > 0 && !IsSpace(t[0])
    requires forall j :: 0 <= j < |t| ==> !IsLineTerminator(t[j])
    requires |rest| == 0 || IsLineTerminator(rest[0])
    ensures ExtractTitle(fm, body, filename) == Str(Trim(t))
  {
    assert body == p + ['#', ' '] + t + rest;
    HeadingCapture(p, ' ', t, rest);
    forall j: nat | j < |p| ensures HeadingAt(body, j).None? {
      assert body[j] == p[j] && p[j] in p;
    }
    assert FirstMatchFrom(body, 0, |p|);
  }

  /** A heading after an introductory line. */
  lemma HeadingAfterIntro(fm: FrontmatterData, filename: string)
    requires !Truthy(Get(fm, "title"))
    ensures ExtractTitle(fm, "intro\n# T", filename) == Str("T")
  {
    var p := "intro\n";
    assert '#' !in p by { forall j | 0 <= j < |p| ensures p[j] != '#' {} }
    assert "intro\n# T" == p + "# " + "T" + "";
    HeadingTitle(fm, "intro\n# T", p, "T", "", filename);
    TrimPadded("", "T", "");
    assert "" + "T" + "" == "T";
  }

  /** A heading after a blank line. */
  lemma HeadingAfterBlankLine(fm: FrontmatterData, filename: string)
    requires !Truthy(Get(fm, "title"))
    ensures ExtractTitle(fm, "\n# T", filename) == Str("T")
  {
    assert "\n# T" == "\n" + "# " + "T" + "";
    HeadingTitle(fm, "\n# T", "\n", "T", "", filename);
    TrimPadded("", "T", "");
    assert "" + "T" + "" == "T";
  }

  /** The white space after `#` may be a line break: `#` alone on a line takes the next line as the title. */
  lemma HashThenNewlineTitle(fm: FrontmatterData, body: string, t: string, filename: string)
    requires !Truthy(Get(fm, "title"))
    requires body == "#\n" + t
    requires |t| > 0 && !IsSpace(t[0])
    requires forall j :: 0 <= j < |t| ==> !IsLineTerminator(t[j])
    ensures ExtractTitle(fm, body, filename) == Str(Trim(t))
  {
    assert body == "" + ['#', '\n'] + t + "";
    HeadingCapture("", '\n', t, "");
    assert FirstMatchFrom(body, 0, 0);
  }

  /**
   * A `#` followed only by two or more blanks to the end of the note is a
   * match whose capture is the last blank, so the title is the empty string
   * and the file name is not used.
   */
  lemma BlankHeadingGivesEmptyTitle(fm: FrontmatterData, blanks: string, filename: string)
    requires !Truthy(Get(fm, "title"))
    requires |blanks| >= 2
    requires forall j :: 0 <= j < |blanks| ==> IsSpace(blanks[j]) && !IsLineTerminator(blanks[j])
    ensures ExtractTitle(fm, "#" + blanks, filename) == Str("")
  {
    var s := "#" + blanks;
    var c := [blanks[|blanks| - 1]];
    BlankHeadingCapture(blanks);
    assert FirstHeadingFrom(s, 0) == Some(c);
    assert AllSpaces(c);
    TrimPadded(c, "", "");
    assert c + "" + "" == c;
  }

  /** The capture of `#` and trailing blanks is the last blank. */
  lemma BlankHeadingCapture(blanks: string)
    requires |blanks| >= 2
    requires forall j :: 0 <= j < |blanks| ==> IsSpace(blanks[j]) && !IsLineTerminator(blanks[j])
    ensures HeadingAt("#" + blanks, 0) == Some([blanks[|blanks| - 1]])
  {
    var s := "#" + blanks;
    assert forall j :: 1 <= j < |s| ==> s[j] == blanks[j - 1];
    assert SpaceRunEnd(s, 1) == |s|;
    assert LastInLine(s, 2, |s|) == Some(|s| - 1);
    assert LineEnd(s, |s| - 1) == |s|;
    assert s[0] == '#' && LineStart(s, 0);
    assert s[|s| - 1..|s|] == [blanks[|blanks| - 1]];
  }

  /** `##` never starts a match: the character after `#` must be white space. */
  lemma SecondLevelNotHeading(s: string, i: nat)
    requires i + 1 < |s| && s[i] == '#' && s[i + 1] == '#'
    ensures HeadingAt(s, i).None?
  {
    assert SpaceRunEnd(s, i + 1) == i + 1;
  }

  /** A single `## T` line supplies no title: the file name does. */
  lemma SecondLevelFallsBack(fm: FrontmatterData, t: string, filename: string)
    requires !Truthy(Get(fm, "title"))
    requires forall j :: 0 <= j < |t| ==> !IsLineTerminator(t[j])
    ensures ExtractTitle(fm, "## " + t, filename) == Str(StripMd(filename))
  {
    var s := "## " + t;
    forall i: nat | i < |s| ensures HeadingAt(s, i).None? {
      if i == 0 {
        SecondLevelNotHeading(s, 0);
      } else {
        assert !IsLineTerminator(s[i - 1]) by {
          if i - 1 >= 3 { assert s[i - 1] == t[i - 4]; }
        }
      }
    }
    NoHeadingFrom(s, 0);
  }

  /** Only a `.md` at the very end is removed. */
  lemma StripMdExamples()
    ensures StripMd("post.md") == "post"
    ensures StripMd("post.md.bak") == "post.md.bak"
    ensures StripMd("post") == "post"
  {
  }

  // ---------------------------------------------------------------------
  // extractCategories
  // ---------------------------------------------------------------------

  predicate IsArray(v: Option<Value>)
  {
    v.Some? && v.value.Arr?
  }

  /** `extractCategories`: the `categories` array if there is one, else the `tags` array, else none. */
  function ExtractCategories(fm: FrontmatterData): (r: seq<Value>)
    ensures IsArray(Get(fm, "categories")) ==> Get(fm, "categories") == Some(Arr(r))
    ensures !IsArray(Get(fm, "categories")) && IsArray(Get(fm, "tags")) ==> Get(fm, "tags") == Some(Arr(r))
    ensures !IsArray(Get(fm, "categories")) && !IsArray(Get(fm, "tags")) ==> r == []
  {
    match Get(fm, "categories")
    case Some(Arr(items)) => items
    case _ =>
      match Get(fm, "tags")
      case Some(Arr(items)) => items
      case _ => []
  }
}
