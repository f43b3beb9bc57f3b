/**
 * The post command: the checks made before the dialog opens, the values
 * the dialog starts from, and what happens on confirm. Images embedded as
 * `![[path]]` are uploaded and their embeds replaced, the entry is created
 * or updated, and the reply's links are written back into the frontmatter.
 * File lookup, uploads, the Markdown to HTML conversion and the network
 * round trip are parameters; a failing step is a thrown error, which ends
 * the command without touching the frontmatter.
 */
module PostCommand {
  import opened Optional
  import opened Text
  import opened Bytes
  import Base64
  import opened Values
  import opened Types
  import opened Frontmatter
  import opened HatenaClient
  import Wsse

  // ---------------------------------------------------------------------
  // arrayBufferToBase64
  // ---------------------------------------------------------------------

  /** One Latin-1 character per byte, appended in order, then `btoa`: the base 64 of the bytes. */
  method ArrayBufferToBase64(buffer: array<byte>) returns (r: string)
    ensures r == Base64.Encode(buffer[..])
  {
    var binary := "";
    for i := 0 to buffer.Length
      invariant binary == Latin1String(buffer[..i])
    {
      binary := binary + [buffer[i] as char];
    }
    assert buffer[..buffer.Length] == buffer[..];
    Latin1RoundTrip(buffer[..]);
    r := Base64.Btoa(binary).value;
  }

  // ---------------------------------------------------------------------
  // Image embeds: /!\[\[([^\]]+)\]\]/g
  // ---------------------------------------------------------------------

  /** The embed text for a path. */
  function Embed(path: string): string
  {
    "![[" + path + "]]"
  }

  /** An embed at the front of `s`: a non-empty path without `]` between `![[` and `]]`. */
  function EmbedAt(s: string): (r: Option<string>)
    ensures r.Some? ==> r.value != "" && ']' !in r.value && |r.value| + 5 <= |s|
    ensures r.Some? ==> s[..|r.value| + 5] == Embed(r.value)
  {
    if |s| >= 3 && s[0] == '!' && s[1] == '[' && s[2] == '[' then
      var (path, rest) := TakeUntil(s[3..], ']');
      if |path| > 0 && |rest| >= 2 && rest[1] == ']' then
        assert s[3..][..|path| + 2] == path + "]]";
        assert s[..|path| + 5] == "![[" + s[3..][..|path| + 2];
        Some(path)
      else None
    else None
  }

  /** The paths of the embeds in `s`, left to right; the scan resumes after each embed. */
  function ImageMatches(s: string): (r: seq<string>)
    ensures forall k :: 0 <= k < |r| ==> r[k] != "" && ']' !in r[k]
    decreases |s|
  {
    if |s| == 0 then []
    else match EmbedAt(s)
      case Some(path) => [path] + ImageMatches(s[|path| + 5..])
      case None => ImageMatches(s[1..])
  }

  lemma EmbedAtEmbed(path: string, t: string)
    requires path != "" && ']' !in path
    ensures EmbedAt(Embed(path) + t) == Some(path)
  {
    var s := Embed(path) + t;
    assert s[3..] == path + ("]]" + t);
    TakeUntilConcat(path, "]]" + t, ']');
  }

  lemma {:induction false} NoBangNoMatches(s: string)
    requires '!' !in s
    ensures ImageMatches(s) == []
    decreases |s|
  {
    if |s| > 0 {
      NoBangNoMatches(s[1..]);
    }
  }

  lemma {:induction false} MatchesAfterPlainText(a: string, t: string)
    requires '!' !in a
    ensures ImageMatches(a + t) == ImageMatches(t)
    decreases |a|
  {
    if |a| > 0 {
      assert (a + t)[1..] == a[1..] + t;
      MatchesAfterPlainText(a[1..], t);
    } else {
      assert a + t == t;
    }
  }

  /** Text around one embed, without any `!`, holds exactly that embed. */
  lemma OneEmbed(a: string, path: string, b: string)
    requires '!' !in a && '!' !in b && path != "" && ']' !in path
    ensures ImageMatches(a + Embed(path) + b) == [path]
  {
    assert a + Embed(path) + b == a + (Embed(path) + b);
    MatchesAfterPlainText(a, Embed(path) + b);
    EmbedAtEmbed(path, b);
    assert (Embed(path) + b)[|path| + 5..] == b;
    NoBangNoMatches(b);
  }

  /** What an upload call ends in: a thrown error, or a returned id that may be `null`. */
  datatype Upload = Threw | Returned(id: Option<string>)

  /** The id to substitute: only a returned, non-empty id. */
  function UploadedId(u: Upload): (r: Option<string>)
    ensures r.Some? <==> u.Returned? && u.id.Some? && u.id.value != ""
    ensures r.Some? ==> r == u.id
  {
    if u.Returned? && u.id.Some? && u.id.value != "" then u.id else None
  }

  /**
   * One turn of the loop for match number `k`: look the path up; if a file
   * is found and its upload returns an id, replace the first remaining
   * occurrence of the embed text by `[id]`.
   */
  function Step(processed: string, path: string, k: nat,
                resolve: string -> Option<string>, upload: (nat, string) -> Upload): (r: string)
    ensures r == processed || (resolve(path).Some? && UploadedId(upload(k, resolve(path).value)).Some?)
  {
    match resolve(path)
    case None => processed
    case Some(file) =>
      match UploadedId(upload(k, file))
      case None => processed
      case Some(id) => ReplaceFirst(processed, Embed(path), "[" + id + "]")
  }

  function SubstituteFrom(processed: string, paths: seq<string>, k: nat,
                          resolve: string -> Option<string>, upload: (nat, string) -> Upload): string
    decreases |paths|
  {
    if |paths| == 0 then processed
    else SubstituteFrom(Step(processed, paths[0], k, resolve, upload), paths[1..], k + 1, resolve, upload)
  }

  /**
   * The body after the image loop: every match of the original body in
   * turn, numbered from 0. When no file is found, or no upload yields an
   * id, the body is left as it is.
   */
  function SubstituteImages(body: string, resolve: string -> Option<string>,
                            upload: (nat, string) -> Upload): (r: string)
    ensures (forall p :: resolve(p).None?) || (forall j, f :: UploadedId(upload(j, f)).None?) ==> r == body
  {
    var r := SubstituteFrom(body, ImageMatches(body), 0, resolve, upload);
    assert (forall p :: resolve(p).None?) || (forall j, f :: UploadedId(upload(j, f)).None?) ==> r == body by {
      if (forall p :: resolve(p).None?) || (forall j, f :: UploadedId(upload(j, f)).None?) {
        NoUploadNoChange(body, ImageMatches(body), 0, resolve, upload);
      }
    }
    r
  }

  /** The image loop of `publishPost`. */
  method ProcessImages(body: string, resolve: string -> Option<string>,
                       upload: (nat, string) -> Upload) returns (processed: string)
    ensures processed == SubstituteImages(body, resolve, upload)
  {
    var matches := ImageMatches(body);
    processed := body;
    var k := 0;
    while k < |matches|
      invariant k <= |matches|
      invariant SubstituteFrom(processed, matches[k..], k, resolve, upload) == SubstituteImages(body, resolve, upload)
    {
      assert matches[k..][1..] == matches[k + 1..];
      var path := matches[k];
      var file := resolve(path);
      if file.Some? {
        var id := UploadedId(upload(k, file.value));
        if id.Some? {
          processed := ReplaceFirst(processed, Embed(path), "[" + id.value + "]");
        }
      }
      k := k + 1;
    }
  }

  /** When no file is found, or no upload yields an id, the body is left as it is. */
  lemma {:induction false} NoUploadNoChange(processed: string, paths: seq<string>, k: nat,
                                            resolve: string -> Option<string>, upload: (nat, string) -> Upload)
    requires (forall p :: resolve(p).None?) || (forall j, f :: UploadedId(upload(j, f)).None?)
    ensures SubstituteFrom(processed, paths, k, resolve, upload) == processed
    decreases |paths|
  {
    if |paths| > 0 {
      NoUploadNoChange(processed, paths[1..], k + 1, resolve, upload);
    }
  }

  /** Without a `!` before it, the embed is the first occurrence of its own text. */
  lemma EmbedFirstAt(a: string, path: string, b: string)
    requires '!' !in a
    ensures IsAt(a + Embed(path) + b, Embed(path), |a|)
    ensures forall j: nat :: j < |a| ==> !IsAt(a + Embed(path) + b, Embed(path), j)
  {
    var s := a + Embed(path) + b;
    var pat := Embed(path);
    assert s[|a|..|a| + |pat|] == pat;
    forall j: nat | j < |a| ensures !IsAt(s, pat, j) {
      assert s[j] == a[j];
      if j + |pat| <= |s| {
        assert s[j..j + |pat|][0] == s[j];
      }
    }
  }

  lemma ReplaceEmbed(a: string, path: string, b: string, id: string)
    requires '!' !in a && '$' !in id
    ensures ReplaceFirst(a + Embed(path) + b, Embed(path), "[" + id + "]") == a + "[" + id + "]" + b
  {
    var s := a + Embed(path) + b;
    var pat := Embed(path);
    EmbedFirstAt(a, path, b);
    ReplaceFirstPlain(s, pat, "[" + id + "]", |a|);
    assert s[..|a|] == a;
    assert s[|a| + |pat|..] == b;
  }

  /** A successful upload replaces its embed by `[id]` and keeps the text around it. */
  lemma OneEmbedReplaced(a: string, path: string, b: string, file: string, id: string,
                         resolve: string -> Option<string>, upload: (nat, string) -> Upload)
    requires '!' !in a && '!' !in b && path != "" && ']' !in path
    requires resolve(path) == Some(file) && upload(0, file) == Returned(Some(id))
    requires id != "" && '$' !in id
    ensures SubstituteImages(a + Embed(path) + b, resolve, upload) == a + "[" + id + "]" + b
  {
    var s := a + Embed(path) + b;
    OneEmbed(a, path, b);
    ReplaceEmbed(a, path, b, id);
    var r := a + "[" + id + "]" + b;
    assert Step(s, path, 0, resolve, upload) == r;
    assert [path][1..] == [];
    assert SubstituteFrom(s, [path], 0, resolve, upload) == SubstituteFrom(r, [], 1, resolve, upload);
  }

  // ---------------------------------------------------------------------
  // Draft and update rules
  // ---------------------------------------------------------------------

  /** `frontmatter.draft ?? settings.defaultDraft`, as the truth value every later use tests. */
  function IsDraft(fm: FrontmatterData, defaultDraft: bool): (r: bool)
    ensures Get(fm, "draft").None? || Get(fm, "draft") == Some(Null) ==> r == defaultDraft
    ensures forall b :: Get(fm, "draft") == Some(Bool(b)) ==> r == b
    ensures Get(fm, "draft").Some? && Get(fm, "draft") != Some(Null) ==> r == Truthy(Get(fm, "draft"))
  {
    match Get(fm, "draft")
    case None => defaultDraft
    case Some(Null) => defaultDraft
    case Some(v) => Truthy(Some(v))
  }

  /**
   * `!!frontmatter['hatena-member-uri']`: false when the field is missing or
   * null; for a string, true exactly when it is not empty.
   */
  function IsUpdate(fm: FrontmatterData): (r: bool)
    ensures Get(fm, "hatena-member-uri").None? || Get(fm, "hatena-member-uri") == Some(Null) ==> !r
    ensures forall u :: Get(fm, "hatena-member-uri") == Some(Str(u)) ==> (r <==> u != "")
  {
    Truthy(Get(fm, "hatena-member-uri"))
  }

  /** Where the entry goes: a new entry, or the member URI; a truthy URI that is not a string cannot be requested. */
  datatype Route = Create | Update(memberUri: string) | BadUri

  function RouteOf(fm: FrontmatterData): (r: Route)
    ensures r.Create? <==> !IsUpdate(fm)
    ensures r.Update? ==> r.memberUri != "" && Get(fm, "hatena-member-uri") == Some(Str(r.memberUri))
    ensures r.BadUri? ==> IsUpdate(fm) && !Get(fm, "hatena-member-uri").value.Str?
  {
    match Get(fm, "hatena-member-uri")
    case Some(Str(u)) => if u != "" then Update(u) else Create
    case v => if Truthy(v) then BadUri else Create
  }

  /** An explicit `draft: false` wins over the default; a missing or null one does not. */
  lemma ExplicitFalseWins(fm: FrontmatterData)
    requires Get(fm, "draft") == Some(Bool(false))
    ensures !IsDraft(fm, true) && !IsDraft(fm, false)
  {
  }

  // ---------------------------------------------------------------------
  // The entry and the request
  // ---------------------------------------------------------------------

  function StringsOf(vs: seq<Value>): (r: seq<string>)
    requires AllStrings(vs)
    ensures Strs(r) == vs
  {
    seq(|vs|, i requires 0 <= i < |vs| => vs[i].s)
  }

  /**
   * The entry built from the dialog's choices and the HTML. Escaping a
   * title or a category that is not a string throws, so such an entry is
   * never sent.
   */
  function BuildEntry(options: PostOptions, html: string): (r: Option<HatenaEntry>)
    ensures r.Some? <==> options.title.Str? && AllStrings(options.categories)
    ensures r.Some? ==> Str(r.value.title) == options.title && Strs(r.value.categories) == options.categories
    ensures r.Some? ==> r.value.content == html && r.value.draft == options.isDraft
  {
    if options.title.Str? && AllStrings(options.categories) then
      Some(HatenaEntry(options.title.s, html, StringsOf(options.categories), options.isDraft))
    else None
  }

  /**
   * The request `publishPost` sends, if it gets that far, carrying a header
   * generated from the settings' credentials for this request.
   */
  function PlanRequest(settings: Settings, fm: FrontmatterData, options: PostOptions, html: string,
                       nonce: Wsse.Bytes20, created: string, sha1: seq<Bytes.byte> -> Wsse.Bytes20): (r: Option<Request>)
    ensures r.Some? <==> BuildEntry(options, html).Some? && !RouteOf(fm).BadUri?
    ensures r.Some? ==> (r.value.verb == Put <==> IsUpdate(fm))
    ensures r.Some? ==> ParseAtomXml(r.value.body) == BuildEntry(options, html)
    ensures r.Some? && !IsUpdate(fm) ==> r.value.url == settings.rootEndpoint + "/entry"
    ensures r.Some? && RouteOf(fm).Update? ==> r.value.url == RouteOf(fm).memberUri
    ensures r.Some? ==>
      r.value.headers == [("X-WSSE", WsseHeader(Client(settings.rootEndpoint, settings.apiKey), nonce, created, sha1))]
  {
    var c := Client(settings.rootEndpoint, settings.apiKey);
    match BuildEntry(options, html)
    case None => None
    case Some(entry) =>
      match RouteOf(fm)
      case BadUri => None
      case Create => Some(PostEntryRequest(c, entry, nonce, created, sha1))
      case Update(u) => Some(UpdateEntryRequest(c, u, entry, nonce, created, sha1))
  }

  // ---------------------------------------------------------------------
  // Write-back
  // ---------------------------------------------------------------------

  /** A response value that JavaScript finds truthy: present and not empty. */
  predicate Present(v: Option<string>)
  {
    v.Some? && v.value != ""
  }

  /** `if (v) fm[k] = v`. */
  function AssignPresent(fm: FrontmatterData, k: string, v: Option<string>): (r: FrontmatterData)
    ensures Get(r, k) == if Present(v) then Some(Str(v.value)) else Get(fm, k)
    ensures forall k' :: k' != k ==> Get(r, k') == Get(fm, k')
  {
    if Present(v) then Assign(fm, k, Str(v.value)) else fm
  }

  /** The keys the write-back may touch. */
  predicate WrittenKey(k: string)
  {
    k == "title" || k == "categories" || k == "hatena-member-uri" || k == "hatena-url"
  }

  /**
   * The frontmatter after a successful post: title and categories always
   * set to what was posted, the member URI and the public URL set only when
   * the response has them, and every other key kept.
   */
  function WriteBack(fm: FrontmatterData, options: PostOptions, response: HatenaResponse): (r: FrontmatterData)
    ensures Get(r, "title") == Some(options.title)
    ensures Get(r, "categories") == Some(Arr(options.categories))
    ensures forall k :: !WrittenKey(k) ==> Get(r, k) == Get(fm, k)
  {
    var fm1 := Assign(fm, "title", options.title);
    var fm2 := Assign(fm1, "categories", Arr(options.categories));
    assert Get(fm2, "title") == Some(options.title);
    var fm3 := AssignPresent(fm2, "hatena-member-uri", response.memberUri);
    assert Get(fm3, "title") == Some(options.title) && Get(fm3, "categories") == Some(Arr(options.categories));
    AssignPresent(fm3, "hatena-url", response.hatenaUrl)
  }

  /** The member URI changes only when the response carries one. */
  lemma WriteBackMemberUri(fm: FrontmatterData, options: PostOptions, response: HatenaResponse)
    ensures Get(WriteBack(fm, options, response), "hatena-member-uri")
      == if Present(response.memberUri) then Some(Str(response.memberUri.value)) else Get(fm, "hatena-member-uri")
  {
    var k := "hatena-member-uri";
    assert |k| == 17 && k[0] == 'h';
    var fm1 := Assign(fm, "title", options.title);
    assert Get(fm1, k) == Get(fm, k);
    var fm2 := Assign(fm1, "categories", Arr(options.categories));
    assert Get(fm2, k) == Get(fm1, k);
    var fm3 := AssignPresent(fm2, k, response.memberUri);
    assert Get(AssignPresent(fm3, "hatena-url", response.hatenaUrl), k) == Get(fm3, k);
  }

  /** The public URL changes only when the response carries one. */
  lemma WriteBackUrl(fm: FrontmatterData, options: PostOptions, response: HatenaResponse)
    ensures Get(WriteBack(fm, options, response), "hatena-url")
      == if Present(response.hatenaUrl) then Some(Str(response.hatenaUrl.value)) else Get(fm, "hatena-url")
  {
    var k := "hatena-url";
    assert |k| == 10 && k[7] == 'u';
    var fm1 := Assign(fm, "title", options.title);
    assert Get(fm1, k) == Get(fm, k);
    var fm2 := Assign(fm1, "categories", Arr(options.categories));
    assert Get(fm2, k) == Get(fm1, k);
    var fm3 := AssignPresent(fm2, "hatena-member-uri", response.memberUri);
    assert Get(fm3, k) == Get(fm2, k);
  }

  /** After a post the frontmatter routes later posts to update the entry the response named. */
  lemma WriteBackRoutesToUpdate(fm: FrontmatterData, options: PostOptions, response: HatenaResponse)
    requires Present(response.memberUri)
    ensures RouteOf(WriteBack(fm, options, response)) == Update(response.memberUri.value)
  {
    WriteBackMemberUri(fm, options, response);
  }

  /** The frontmatter of the note, as `processFrontMatter` hands it out for changing in place. */
  class FrontMatterFile {
    var fields: FrontmatterData

    constructor(fields: FrontmatterData)
      ensures this.fields == fields
    {
      this.fields := fields;
    }

    /** The callback given to `processFrontMatter` after a successful post. */
    method WriteBackResponse(options: PostOptions, response: HatenaResponse)
      modifies this
      ensures fields == WriteBack(old(fields), options, response)
    {
      fields := Assign(fields, "title", options.title);
      fields := Assign(fields, "categories", Arr(options.categories));
      if Present(response.memberUri) {
        fields := Assign(fields, "hatena-member-uri", Str(response.memberUri.value));
      }
      if Present(response.hatenaUrl) {
        fields := Assign(fields, "hatena-url", Str(response.hatenaUrl.value));
      }
    }
  }

  // ---------------------------------------------------------------------
  // The command
  // ---------------------------------------------------------------------

  /** The note open in the editor: its file name and its text. */
  datatype ActiveFile = ActiveFile(name: string, content: string)

  /** How `executePostCommand` ends: a notice, or the dialog opened with these values. */
  datatype Start =
    | ConfigMissing
    | NoActiveFile
    | OpenDialog(title: Value, categories: seq<Value>, isDraft: bool, isUpdate: bool,
                 body: string, frontmatter: FrontmatterData)

  /** `executePostCommand` up to opening the dialog. */
  function StartPost(settings: Settings, active: Option<ActiveFile>, parse: string -> YamlResult): (r: Start)
    ensures r == ConfigMissing <==> settings.apiKey == "" || settings.rootEndpoint == ""
    ensures r == NoActiveFile <==> settings.apiKey != "" && settings.rootEndpoint != "" && active.None?
    ensures r.OpenDialog? ==> active.Some? && EndsWith(active.value.content, r.body)
    ensures r.OpenDialog? ==>
      (r.frontmatter, r.body) == ParseFrontmatter(active.value.content, parse) &&
      r.title == ExtractTitle(r.frontmatter, r.body, active.value.name) &&
      r.categories == ExtractCategories(r.frontmatter) &&
      r.isDraft == IsDraft(r.frontmatter, settings.defaultDraft) &&
      r.isUpdate == IsUpdate(r.frontmatter)
  {
    if settings.apiKey == "" || settings.rootEndpoint == "" then ConfigMissing
    else match active
      case None => NoActiveFile
      case Some(f) =>
        var (fm, body) := ParseFrontmatter(f.content, parse);
        OpenDialog(ExtractTitle(fm, body, f.name), ExtractCategories(fm),
                   IsDraft(fm, settings.defaultDraft), IsUpdate(fm), body, fm)
  }

  /** Without an API key or root endpoint the command stops before looking at any note. */
  lemma ConfigCheckedFirst(settings: Settings, a1: Option<ActiveFile>, a2: Option<ActiveFile>,
                           parse: string -> YamlResult)
    requires settings.apiKey == "" || settings.rootEndpoint == ""
    ensures StartPost(settings, a1, parse) == StartPost(settings, a2, parse) == ConfigMissing
  {
  }

  /** A fresh installation asks for configuration. */
  lemma DefaultSettingsAskForConfig(active: Option<ActiveFile>, parse: string -> YamlResult)
    ensures StartPost(DefaultSettings, active, parse) == ConfigMissing
  {
  }

  /** How `publishPost` ends. */
  datatype Outcome = Failed | Posted(response: HatenaResponse)

  /**
   * What confirming the dialog leads to: the images are processed, the body
   * converted (`convert` gives nothing when the conversion throws), the
   * request sent (`send` gives the reply's links, or nothing when the
   * request throws). Any failure on the way ends the same way.
   */
  function PublishOutcome(settings: Settings, body: string, fm: FrontmatterData, options: PostOptions,
                          resolve: string -> Option<string>, upload: (nat, string) -> Upload,
                          convert: string -> Option<string>,
                          nonce: Wsse.Bytes20, created: string, sha1: seq<Bytes.byte> -> Wsse.Bytes20,
                          send: Request -> Option<seq<Link>>): (r: Outcome)
    ensures convert(SubstituteImages(body, resolve, upload)).None? ==> r == Failed
    ensures !options.title.Str? || !AllStrings(options.categories) || RouteOf(fm).BadUri? ==> r == Failed
    ensures r.Posted? ==>
      var html := convert(SubstituteImages(body, resolve, upload));
      var req := PlanRequest(settings, fm, options, html.value, nonce, created, sha1);
      html.Some? && req.Some? && send(req.value).Some? && r.response == ParseAtomResponse(send(req.value).value)
    ensures
      var html := convert(SubstituteImages(body, resolve, upload));
      html.Some? && PlanRequest(settings, fm, options, html.value, nonce, created, sha1).Some? &&
      send(PlanRequest(settings, fm, options, html.value, nonce, created, sha1).value).Some? ==>
        r == Posted(ParseAtomResponse(send(PlanRequest(settings, fm, options, html.value, nonce, created, sha1).value).value))
  {
    match convert(SubstituteImages(body, resolve, upload))
    case None => Failed
    case Some(html) =>
      match PlanRequest(settings, fm, options, html, nonce, created, sha1)
      case None => Failed
      case Some(req) =>
        match send(req)
        case None => Failed
        case Some(links) => Posted(ParseAtomResponse(links))
  }

  /** `publishPost`: on success the frontmatter is written back; on any failure it is left alone. */
  method PublishPost(file: FrontMatterFile, settings: Settings, body: string, fm: FrontmatterData,
                     options: PostOptions, resolve: string -> Option<string>, upload: (nat, string) -> Upload,
                     convert: string -> Option<string>,
                     nonce: Wsse.Bytes20, created: string, sha1: seq<Bytes.byte> -> Wsse.Bytes20,
                     send: Request -> Option<seq<Link>>)
    returns (outcome: Outcome)
    modifies file
    ensures outcome == PublishOutcome(settings, body, fm, options, resolve, upload, convert, nonce, created, sha1, send)
    ensures outcome.Failed? ==> file.fields == old(file.fields)
    ensures outcome.Posted? ==> file.fields == WriteBack(old(file.fields), options, outcome.response)
  {
    var processed := ProcessImages(body, resolve, upload);
    var html := convert(processed);
    if html.None? {
      return Failed;
    }
    var request := PlanRequest(settings, fm, options, html.value, nonce, created, sha1);
    if request.None? {
      return Failed;
    }
    var reply := send(request.value);
    if reply.None? {
      return Failed;
    }
    var response := ParseAtomResponse(reply.value);
    file.WriteBackResponse(options, response);
    outcome := Posted(response);
  }
}
