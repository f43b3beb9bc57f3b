/**
 * The Hatena Blog AtomPub client: the user id taken from the root endpoint,
 * the Atom entry document it sends (RFC 4287 section 4.1.2, with the
 * `app:control`/`app:draft` extension of RFC 5023 section 13.1), the image
 * upload envelope, and the selection of links and the image id from the
 * replies. The replies arrive already parsed: a reply to an entry request
 * is its list of `link` elements, a reply to an upload its list of
 * elements. The network requests are records of what would be sent.
 */
module HatenaClient {
  import opened Optional
  import opened Text
  import opened HtmlEscape
  import opened Types
  import Base64
  import Bytes
  import Wsse

  /** The client holds the two settings it was built with and never changes them. */
  datatype Client = Client(rootEndpoint: string, apiKey: string)

  // ---------------------------------------------------------------------
  // The user id: /blog\.hatena\.ne\.jp\/([^/]+)/
  // ---------------------------------------------------------------------

  const Host := "blog.hatena.ne.jp/"

  /** The pattern matches at `i`: the host text, then at least one character that is not `/`. */
  predicate MatchAt(s: string, i: nat)
  {
    i + |Host| < |s| && IsAt(s, Host, i) && s[i + |Host|] != '/'
  }

  /** The captured group of a match at `i`: the longest run of non-`/` characters after the host. */
  function Capture(s: string, i: nat): (r: string)
    requires MatchAt(s, i)
    ensures r != "" && '/' !in r
  {
    TakeUntil(s[i + |Host|..], '/').0
  }

  /** The first position at or after `from` where the pattern matches. */
  function FirstMatch(s: string, from: nat): (r: Option<nat>)
    ensures r.Some? ==> from <= r.value && MatchAt(s, r.value)
    ensures r.Some? ==> forall j: nat :: from <= j < r.value ==> !MatchAt(s, j)
    ensures r.None? ==> forall j: nat :: from <= j ==> !MatchAt(s, j)
    decreases |s| - from
  {
    if |s| <= from + |Host| then None
    else if MatchAt(s, from) then Some(from)
    else FirstMatch(s, from + 1)
  }

  /** `userId`: the capture of the first match in the root endpoint, or `''` when there is none. */
  function UserId(rootEndpoint: string): (r: string)
    ensures '/' !in r
    ensures r == "" <==> forall j: nat :: !MatchAt(rootEndpoint, j)
  {
    match FirstMatch(rootEndpoint, 0)
    case None => ""
    case Some(i) => Capture(rootEndpoint, i)
  }

  /** The user id is the segment after the first occurrence of the host that the pattern accepts. */
  lemma UserIdIsFirstMatch(s: string, i: nat)
    requires MatchAt(s, i)
    requires forall j: nat :: j < i ==> !MatchAt(s, j)
    ensures UserId(s) == Capture(s, i)
  {
  }

  /** For an endpoint `https://blog.hatena.ne.jp/<user>/…` the user id is `<user>`. */
  lemma UserIdOfEndpoint(user: string, rest: string)
    requires user != "" && '/' !in user
    requires rest == "" || rest[0] == '/'
    ensures UserId("https://" + Host + user + rest) == user
  {
    var s := "https://" + Host + user + rest;
    assert s[8..8 + |Host|] == Host;
    assert s[8 + |Host|] == user[0];
    forall j: nat | j < 8 ensures !MatchAt(s, j) {
      assert s[j] == "https://"[j] != 'b';
      if j + |Host| <= |s| {
        assert s[j..j + |Host|][0] == s[j];
      }
    }
    assert s[8 + |Host|..] == user + rest;
    if rest == "" {
      TakeUntilAbsent(user, '/');
      assert user + rest == user;
    } else {
      TakeUntilConcat(user, rest, '/');
    }
    UserIdIsFirstMatch(s, 8);
  }

  // ---------------------------------------------------------------------
  // The Atom entry document
  // ---------------------------------------------------------------------

  const XmlHead := "<?xml version=\"1.0\" encoding=\"utf-8\"?>\n<entry xmlns=\"http://www.w3.org/2005/Atom\" xmlns:app=\"http://www.w3.org/2007/app\">\n  <title>"
  const AfterTitle := "</title>\n  <content type=\"text/html\">"
  const AfterContent := "</content>\n  "
  const ControlOpen := "\n  <app:control>\n    "
  const DraftOpen := "<app:draft>"
  const BeforeDraft := ControlOpen + DraftOpen
  const AfterDraft := "</app:draft>\n  </app:control>\n</entry>"
  const CategoryOpen := "<category term=\""
  const CategorySep := "\n  "

  /** `<category term="…" />` with the escaped category as its term. */
  function CategoryElement(c: string): string
  {
    CategoryOpen + (Escape(c) + "\" />")
  }

  /** The category elements, in list order, separated by a newline and two spaces. */
  function CategoryElements(cats: seq<string>): string
  {
    if |cats| == 0 then ""
    else if |cats| == 1 then CategoryElement(cats[0])
    else CategoryElement(cats[0]) + (CategorySep + CategoryElements(cats[1..]))
  }

  /** The category text is `categories.map(element).join("\n  ")`. */
  lemma {:induction false} CategoryElementsIsJoin(cats: seq<string>)
    ensures CategoryElements(cats) == Join(seq(|cats|, i requires 0 <= i < |cats| => CategoryElement(cats[i])), CategorySep)
  {
    var elems := seq(|cats|, i requires 0 <= i < |cats| => CategoryElement(cats[i]));
    if |cats| > 1 {
      CategoryElementsIsJoin(cats[1..]);
      assert elems[1..] == seq(|cats| - 1, i requires 0 <= i < |cats| - 1 => CategoryElement(cats[1..][i]));
    }
  }

  function DraftTail(draft: bool): string
  {
    (if draft then "yes" else "no") + AfterDraft
  }

  /**
   * `buildAtomXml`: the fixed document with the escaped title, the escaped
   * content, the category elements and `yes`/`no` for the draft flag. The
   * document ends in `<app:draft>yes</app:draft>…` exactly when the entry
   * is a draft, whatever the title, content and categories hold.
   */
  function BuildAtomXml(e: HatenaEntry): (r: string)
    ensures EndsWith(r, DraftYes) <==> e.draft
  {
    var tail := BeforeDraft + DraftTail(e.draft);
    var s5 := CategoryElements(e.categories) + tail;
    var s4 := AfterContent + s5;
    var s3 := Escape(e.content) + s4;
    var s2 := AfterTitle + s3;
    var s1 := Escape(e.title) + s2;
    DraftTailFlag(e.draft);
    EndsWithAppend(CategoryElements(e.categories), tail, DraftYes);
    EndsWithAppend(AfterContent, s5, DraftYes);
    EndsWithAppend(Escape(e.content), s4, DraftYes);
    EndsWithAppend(AfterTitle, s3, DraftYes);
    EndsWithAppend(Escape(e.title), s2, DraftYes);
    EndsWithAppend(XmlHead, s1, DraftYes);
    XmlHead + s1
  }

  /** One `<category term="…" />` element at the front of `s`: its unescaped term and what follows it. */
  function ParseCategory(s: string): (r: Option<(string, string)>)
    ensures r.Some? ==> StartsWith(s, CategoryOpen) && |r.value.1| < |s|
  {
    match Expect(s, CategoryOpen)
    case None => None
    case Some(t) =>
      match UpTo(t, '"')
      case None => None
      case Some((term, r)) =>
        match Expect(r, " />")
        case None => None
        case Some(r2) => Some((Unescape(term), r2))
  }

  /** Reads the category elements at the front of `s` and what follows them. */
  function ParseCategories(s: string): Option<(seq<string>, string)>
    decreases |s|
  {
    if !StartsWith(s, CategoryOpen) then Some(([], s))
    else match ParseCategory(s)
      case None => None
      case Some((c, r)) =>
        if StartsWith(r, CategorySep + CategoryOpen) then
          match ParseCategories(r[|CategorySep|..])
          case None => None
          case Some((cs, rest)) => Some(([c] + cs, rest))
        else Some(([c], r))
  }

  /** Reads the category elements and the draft section that closes the document. */
  function ParseEntryTail(s: string): Option<(seq<string>, bool)>
  {
    match ParseCategories(s)
    case None => None
    case Some((cats, s1)) =>
      match Expect(s1, BeforeDraft)
      case None => None
      case Some(s2) =>
        if s2 == DraftTail(true) then Some((cats, true))
        else if s2 == DraftTail(false) then Some((cats, false))
        else None
  }

  /** Reads an entry document back: the element texts and terms unescaped, the draft flag from `yes`/`no`. */
  function ParseAtomXml(x: string): Option<HatenaEntry>
  {
    match Expect(x, XmlHead)
    case None => None
    case Some(s1) =>
      var (title, s2) := TakeUntil(s1, '<');
      match Expect(s2, AfterTitle)
      case None => None
      case Some(s3) =>
        var (content, s4) := TakeUntil(s3, '<');
        match Expect(s4, AfterContent)
        case None => None
        case Some(s5) =>
          match ParseEntryTail(s5)
          case None => None
          case Some((cats, draft)) => Some(HatenaEntry(Unescape(title), Unescape(content), cats, draft))
  }

  lemma MarkupFreeHasNo(s: string)
    requires IsMarkupFree(s)
    ensures '<' !in s && '"' !in s
  {
  }

  lemma CategoryElementsStart(cats: seq<string>)
    requires |cats| > 0
    ensures StartsWith(CategoryElements(cats), CategoryOpen)
  {
    var e := CategoryElement(cats[0]);
    assert StartsWith(e, CategoryOpen);
    if |cats| > 1 {
      var r := CategorySep + CategoryElements(cats[1..]);
      assert (e + r)[..|CategoryOpen|] == e[..|CategoryOpen|];
    }
  }

  /** An element followed by more text, regrouped around the closing quote. */
  lemma ElementConcat(e: string, r: string)
    ensures CategoryOpen + (e + "\" />") + r == CategoryOpen + (e + "\"" + (" />" + r))
  {
    assert "\" />" == "\"" + " />";
    assert (e + "\" />") + r == e + "\"" + (" />" + r);
  }

  /** An element reads back to its category, whatever follows it. */
  lemma ParseOneCategory(c: string, r: string)
    ensures StartsWith(CategoryElement(c) + r, CategoryOpen)
    ensures ParseCategory(CategoryElement(c) + r) == Some((c, r))
  {
    var e, u := Escape(c), " />" + r;
    ElementConcat(e, r);
    ExpectConcat(CategoryOpen, e + "\"" + u);
    MarkupFreeHasNo(e);
    UpToConcat(e, '"', u);
    ExpectConcat(" />", r);
    UnescapeEscape(c);
  }

  /** What may follow the category elements without being read as one. */
  predicate NotCategoryStart(tail: string)
  {
    !StartsWith(tail, CategoryOpen) && !StartsWith(tail, CategorySep + CategoryOpen)
  }

  lemma ParseLastCategory(c: string, r: string)
    requires !StartsWith(r, CategorySep + CategoryOpen)
    ensures ParseCategories(CategoryElement(c) + r) == Some(([c], r))
  {
    ParseOneCategory(c, r);
  }

  lemma ParseNextCategory(c: string, r: string, cs: seq<string>, rest: string)
    requires StartsWith(r, CategorySep + CategoryOpen)
    requires ParseCategories(r[|CategorySep|..]) == Some((cs, rest))
    ensures ParseCategories(CategoryElement(c) + r) == Some(([c] + cs, rest))
  {
    ParseOneCategory(c, r);
  }

  /** A separator before more elements is where the next element starts. */
  lemma SepBeforeElement(elems: string, tail: string)
    requires StartsWith(elems, CategoryOpen)
    ensures StartsWith(CategorySep + (elems + tail), CategorySep + CategoryOpen)
    ensures (CategorySep + (elems + tail))[|CategorySep|..] == elems + tail
  {
    var r := CategorySep + (elems + tail);
    assert r[..|CategorySep + CategoryOpen|] == CategorySep + elems[..|CategoryOpen|];
  }

  lemma ElementsCons(cats: seq<string>, tail: string)
    requires |cats| > 1
    ensures CategoryElements(cats) + tail == CategoryElement(cats[0]) + (CategorySep + (CategoryElements(cats[1..]) + tail))
  {
    var e, r := CategoryElement(cats[0]), CategoryElements(cats[1..]);
    assert CategoryElements(cats) == e + (CategorySep + r);
    Regroup(e, CategorySep, r, tail);
  }

  lemma Regroup(a: string, b: string, c: string, d: string)
    ensures (a + (b + c)) + d == a + (b + (c + d))
  {
  }

  lemma ParseNoCategories(tail: string)
    requires NotCategoryStart(tail)
    ensures ParseCategories(CategoryElements([]) + tail) == Some(([], tail))
  {
    assert CategoryElements([]) + tail == tail;
  }

  lemma ParseMoreCategories(cats: seq<string>, tail: string)
    requires |cats| > 1
    requires ParseCategories(CategoryElements(cats[1..]) + tail) == Some((cats[1..], tail))
    ensures ParseCategories(CategoryElements(cats) + tail) == Some((cats, tail))
  {
    var c, cs := cats[0], cats[1..];
    var elems := CategoryElements(cs);
    var r := CategorySep + (elems + tail);
    ElementsCons(cats, tail);
    CategoryElementsStart(cs);
    SepBeforeElement(elems, tail);
    ParseNextCategory(c, r, cs, tail);
    assert [c] + cs == cats;
  }

  /** The category elements read back to the categories, in order, duplicates kept. */
  lemma {:induction false} ParseCategoryElements(cats: seq<string>, tail: string)
    requires NotCategoryStart(tail)
    ensures ParseCategories(CategoryElements(cats) + tail) == Some((cats, tail))
    decreases |cats|
  {
    if |cats| == 0 {
      ParseNoCategories(tail);
    } else if |cats| == 1 {
      ParseLastCategory(cats[0], tail);
      assert cats == [cats[0]];
    } else {
      ParseCategoryElements(cats[1..], tail);
      ParseMoreCategories(cats, tail);
    }
  }

  lemma TextBeforeTag(v: string, t: string)
    requires IsMarkupFree(v) && |t| > 0 && t[0] == '<'
    ensures TakeUntil(v + t, '<') == (v, t)
  {
    MarkupFreeHasNo(v);
    TakeUntilConcat(v, t, '<');
  }

  lemma DraftSection(d: bool)
    ensures NotCategoryStart(BeforeDraft + DraftTail(d))
    ensures Expect(BeforeDraft + DraftTail(d), BeforeDraft) == Some(DraftTail(d))
    ensures DraftTail(true) != DraftTail(false)
  {
    var t := BeforeDraft + DraftTail(d);
    assert t[0] == '\n';
    assert t[4] == 'a';
    assert (CategorySep + CategoryOpen)[4] == 'c';
    ExpectConcat(BeforeDraft, DraftTail(d));
    assert DraftTail(true)[0] != DraftTail(false)[0];
  }

  /**
   * The entry document reads back to the entry it was built from: the
   * title, content and terms are escaped, so no field can open an element
   * or close an attribute value, and the elements come in their fixed order.
   */
  lemma ParseBuild(e: HatenaEntry)
    ensures ParseAtomXml(BuildAtomXml(e)) == Some(e)
  {
    var s5 := CategoryElements(e.categories) + (BeforeDraft + DraftTail(e.draft));
    var s4 := AfterContent + s5;
    var s3 := Escape(e.content) + s4;
    var s2 := AfterTitle + s3;
    var s1 := Escape(e.title) + s2;
    ExpectConcat(XmlHead, s1);
    TextBeforeTag(Escape(e.title), s2);
    ExpectConcat(AfterTitle, s3);
    TextBeforeTag(Escape(e.content), s4);
    ExpectConcat(AfterContent, s5);
    ParseTailBuild(e.categories, e.draft);
    UnescapeEscape(e.title);
    UnescapeEscape(e.content);
  }

  /** The category elements and the draft section read back to the categories and the flag. */
  lemma ParseTailBuild(cats: seq<string>, draft: bool)
    ensures ParseEntryTail(CategoryElements(cats) + (BeforeDraft + DraftTail(draft))) == Some((cats, draft))
  {
    DraftSection(draft);
    ParseCategoryElements(cats, BeforeDraft + DraftTail(draft));
  }

  /** Different entries give different documents. */
  lemma BuildInjective(e1: HatenaEntry, e2: HatenaEntry)
    requires BuildAtomXml(e1) == BuildAtomXml(e2)
    ensures e1 == e2
  {
    ParseBuild(e1);
    ParseBuild(e2);
  }

  /** `<app:draft>yes</app:draft>` and the closing tags after it. */
  const DraftYes := DraftOpen + DraftTail(true)

  /** A suffix no longer than `b` is a suffix of `a + b` exactly when it is one of `b`. */
  lemma EndsWithAppend(a: string, b: string, suffix: string)
    requires |suffix| <= |b|
    ensures EndsWith(a + b, suffix) <==> EndsWith(b, suffix)
  {
    assert (a + b)[|a + b| - |suffix|..] == b[|b| - |suffix|..];
  }

  lemma DraftTailFlag(d: bool)
    ensures EndsWith(BeforeDraft + DraftTail(d), DraftYes) <==> d
  {
    var t := BeforeDraft + DraftTail(d);
    var u := DraftOpen + DraftTail(d);
    assert t == ControlOpen + u;
    if d {
      assert t[|t| - |DraftYes|..] == u;
    } else {
      assert |u| + 1 == |DraftYes|;
      assert t[|t| - |DraftYes|] == ControlOpen[|ControlOpen| - 1] == ' ';
    }
  }

  // ---------------------------------------------------------------------
  // The image upload envelope (the older Atom namespace of Hatena Fotolife)
  // ---------------------------------------------------------------------

  const UploadHead := "<entry xmlns=\"http://purl.org/atom/ns#\">\n\t<dc:subject>Hatena Blog</dc:subject>\n\t<title>"
  const UploadAfterTitle := "</title>\n\t<content mode=\"base64\" type=\""
  const UploadTail := "</content>\n</entry>"

  /**
   * The envelope: the file name escaped, the MIME type and the base 64
   * payload inserted as they are. It reads back to its three parts when the
   * MIME type has no `"` and the payload no `<`; only the file name needed
   * escaping for that.
   */
  function UploadXml(filename: string, payload: string, mimeType: string): (r: string)
    ensures '"' !in mimeType && '<' !in payload ==> ParseUploadXml(r) == Some((filename, payload, mimeType))
  {
    var s5 := payload + UploadTail;
    var s4 := ">" + s5;
    var s3 := mimeType + "\"" + s4;
    var s2 := UploadAfterTitle + s3;
    var s1 := Escape(filename) + s2;
    assert UploadHead + (Escape(filename) + (UploadAfterTitle + (mimeType + ("\">" + (payload + UploadTail)))))
        == UploadHead + s1;
    if '"' !in mimeType && '<' !in payload then
      ExpectConcat(UploadHead, s1);
      TextBeforeTag(Escape(filename), s2);
      ExpectConcat(UploadAfterTitle, s3);
      UpToConcat(mimeType, '"', s4);
      ExpectConcat(">", s5);
      TakeUntilConcat(payload, UploadTail, '<');
      UnescapeEscape(filename);
      UploadHead + s1
    else UploadHead + s1
  }

  /** Reads an envelope back into the file name, the payload and the MIME type. */
  function ParseUploadXml(x: string): Option<(string, string, string)>
  {
    match Expect(x, UploadHead)
    case None => None
    case Some(s1) =>
      var (name, s2) := TakeUntil(s1, '<');
      match Expect(s2, UploadAfterTitle)
      case None => None
      case Some(s3) =>
        match UpTo(s3, '"')
        case None => None
        case Some((mimeType, s4)) =>
          match Expect(s4, ">")
          case None => None
          case Some(s5) =>
            var (payload, s6) := TakeUntil(s5, '<');
            if s6 == UploadTail then Some((Unescape(name), payload, mimeType)) else None
  }

  /** A base 64 payload never holds a `<`, so the envelope of any file reads back. */
  lemma ParseUploadOfBytes(filename: string, bytes: seq<Bytes.byte>, mimeType: string)
    requires '"' !in mimeType
    ensures ParseUploadXml(UploadXml(filename, Base64.Encode(bytes), mimeType)) == Some((filename, Base64.Encode(bytes), mimeType))
  {
    var p := Base64.Encode(bytes);
    assert '<' !in p by {
      forall i | 0 <= i < |p| ensures p[i] != '<' {
        assert Base64.IsEncodedChar(p[i]);
      }
    }
  }

  // ---------------------------------------------------------------------
  // Replies
  // ---------------------------------------------------------------------

  /** A `link` element of a reply: its `rel` and `href` attributes, when present. */
  datatype Link = Link(rel: Option<string>, href: Option<string>)

  /** An element of an upload reply: its tag name and its text content. */
  datatype Element = Element(name: string, text: string)

  /** `i` is the first link whose `rel` is exactly `rel`. */
  predicate FirstWithRel(links: seq<Link>, rel: string, i: int)
  {
    0 <= i < |links| && links[i].rel == Some(rel)
    && forall j :: 0 <= j < i ==> links[j].rel != Some(rel)
  }

  /** `querySelector("link[rel=…]")?.getAttribute('href') || null`. */
  function SelectHref(links: seq<Link>, rel: string): (r: Option<string>)
    ensures r.Some? ==> r.value != "" && exists i :: FirstWithRel(links, rel, i) && links[i].href == r
    ensures r.None? ==> forall i :: FirstWithRel(links, rel, i) ==> links[i].href.None? || links[i].href == Some("")
  {
    if |links| == 0 then None
    else if links[0].rel == Some(rel) then
      (if links[0].href == Some("") then None else links[0].href)
    else
      var r := SelectHref(links[1..], rel);
      assert forall i :: FirstWithRel(links[1..], rel, i) <==> FirstWithRel(links, rel, i + 1);
      r
  }

  /** `parseAtomResponse`: the member URI from the first `edit` link, the public URL from the first `alternate` link. */
  function ParseAtomResponse(links: seq<Link>): (r: HatenaResponse)
    ensures r.memberUri.Some? ==> exists i :: FirstWithRel(links, "edit", i) && links[i].href == r.memberUri
    ensures r.hatenaUrl.Some? ==> exists i :: FirstWithRel(links, "alternate", i) && links[i].href == r.hatenaUrl
    ensures r.memberUri.None? ==>
      forall i :: FirstWithRel(links, "edit", i) ==> links[i].href.None? || links[i].href == Some("")
    ensures r.hatenaUrl.None? ==>
      forall i :: FirstWithRel(links, "alternate", i) ==> links[i].href.None? || links[i].href == Some("")
  {
    HatenaResponse(SelectHref(links, "edit"), SelectHref(links, "alternate"))
  }

  /** Links after the first `edit` link, or with other relations, do not change the member URI. */
  lemma {:induction false} SelectHrefIgnoresLater(links: seq<Link>, rel: string, i: int, more: seq<Link>)
    requires FirstWithRel(links, rel, i)
    ensures SelectHref(links + more, rel) == SelectHref(links, rel)
  {
    if i > 0 {
      assert (links + more)[1..] == links[1..] + more;
      assert FirstWithRel(links[1..], rel, i - 1);
      SelectHrefIgnoresLater(links[1..], rel, i - 1, more);
    }
  }

  /** `i` is the first element named `hatena:syntax`. */
  predicate FirstSyntax(elems: seq<Element>, i: int)
  {
    0 <= i < |elems| && elems[i].name == "hatena:syntax"
    && forall j :: 0 <= j < i ==> elems[j].name != "hatena:syntax"
  }

  /** The image id: the text of the first `hatena:syntax` element, nothing if it is missing or empty. */
  function ImageId(elems: seq<Element>): (r: Option<string>)
    ensures r.Some? <==> exists i :: FirstSyntax(elems, i) && elems[i].text != ""
    ensures r.Some? ==> r.value != "" && exists i :: FirstSyntax(elems, i) && elems[i].text == r.value
  {
    if |elems| == 0 then None
    else if elems[0].name == "hatena:syntax" then
      (if elems[0].text == "" then None else Some(elems[0].text))
    else
      assert forall i :: FirstSyntax(elems[1..], i) <==> FirstSyntax(elems, i + 1);
      ImageId(elems[1..])
  }

  // ---------------------------------------------------------------------
  // Requests
  // ---------------------------------------------------------------------

  datatype HttpMethod = Post | Put

  /** A request as `requestUrl` receives it. */
  datatype Request = Request(url: string, verb: HttpMethod, contentType: string,
                             headers: seq<(string, string)>, body: string)

  /**
   * The `X-WSSE` header of a client, for the nonce, time and digest function
   * given: it names the client's user id and the time, and a server holding
   * the client's API key accepts it.
   */
  function WsseHeader(c: Client, nonce: Wsse.Bytes20, created: string,
                      sha1: seq<Bytes.byte> -> Wsse.Bytes20): (r: string)
    ensures '"' !in UserId(c.rootEndpoint) && '"' !in created ==>
      Wsse.ParseHeader(r).Some? &&
      Wsse.ParseHeader(r).value.username == UserId(c.rootEndpoint) &&
      Wsse.ParseHeader(r).value.created == created &&
      Wsse.ServerAccepts(Wsse.ParseHeader(r).value, c.apiKey, sha1)
  {
    if '"' !in UserId(c.rootEndpoint) && '"' !in created then
      Wsse.HeaderAccepted(UserId(c.rootEndpoint), c.apiKey, nonce, created, sha1);
      Wsse.GenerateHeader(UserId(c.rootEndpoint), c.apiKey, nonce, created, sha1)
    else Wsse.GenerateHeader(UserId(c.rootEndpoint), c.apiKey, nonce, created, sha1)
  }

  /**
   * `postEntry`: POST the entry document to the collection `<root>/entry`,
   * with a header generated for this request.
   */
  function PostEntryRequest(c: Client, e: HatenaEntry, nonce: Wsse.Bytes20, created: string,
                            sha1: seq<Bytes.byte> -> Wsse.Bytes20): (r: Request)
    ensures r.verb == Post && r.url == c.rootEndpoint + "/entry"
    ensures r.headers == [("X-WSSE", WsseHeader(c, nonce, created, sha1))]
    ensures ParseAtomXml(r.body) == Some(e)
  {
    ParseBuild(e);
    Request(c.rootEndpoint + "/entry", Post, "application/xml",
            [("X-WSSE", WsseHeader(c, nonce, created, sha1))], BuildAtomXml(e))
  }

  /** `updateEntry`: PUT the entry document to the member URI, with a header generated for this request. */
  function UpdateEntryRequest(c: Client, memberUri: string, e: HatenaEntry, nonce: Wsse.Bytes20, created: string,
                              sha1: seq<Bytes.byte> -> Wsse.Bytes20): (r: Request)
    ensures r.verb == Put && r.url == memberUri
    ensures r.headers == [("X-WSSE", WsseHeader(c, nonce, created, sha1))]
    ensures ParseAtomXml(r.body) == Some(e)
  {
    ParseBuild(e);
    Request(memberUri, Put, "application/xml",
            [("X-WSSE", WsseHeader(c, nonce, created, sha1))], BuildAtomXml(e))
  }

  /** `uploadImage`: POST the envelope to Hatena Fotolife, with a header generated for this request. */
  function UploadImageRequest(c: Client, filename: string, payload: string, mimeType: string,
                              nonce: Wsse.Bytes20, created: string,
                              sha1: seq<Bytes.byte> -> Wsse.Bytes20): (r: Request)
    ensures r.verb == Post && r.url == "https://f.hatena.ne.jp/atom/post"
    ensures r.headers == [("X-WSSE", WsseHeader(c, nonce, created, sha1)),
                          ("Accept", "application/x.atom+xml, application/xml, text/xml, */*")]
    ensures '"' !in mimeType && '<' !in payload ==> ParseUploadXml(r.body) == Some((filename, payload, mimeType))
  {
    Request("https://f.hatena.ne.jp/atom/post", Post, "application/xml",
            [("X-WSSE", WsseHeader(c, nonce, created, sha1)),
             ("Accept", "application/x.atom+xml, application/xml, text/xml, */*")],
            UploadXml(filename, payload, mimeType))
  }

  /** Creating and updating send the same document with the same headers; only the target and the method differ. */
  lemma CreateAndUpdateAgree(c: Client, memberUri: string, e: HatenaEntry, nonce: Wsse.Bytes20, created: string,
                             sha1: seq<Bytes.byte> -> Wsse.Bytes20)
    ensures PostEntryRequest(c, e, nonce, created, sha1).body == UpdateEntryRequest(c, memberUri, e, nonce, created, sha1).body
    ensures PostEntryRequest(c, e, nonce, created, sha1).headers == UpdateEntryRequest(c, memberUri, e, nonce, created, sha1).headers
    ensures PostEntryRequest(c, e, nonce, created, sha1).verb != UpdateEntryRequest(c, memberUri, e, nonce, created, sha1).verb
  {
  }
}
