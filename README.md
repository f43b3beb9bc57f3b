# Hatena Blog posting from Obsidian notes — a verified model

This project models the core of an Obsidian plugin. The plugin publishes a Markdown note to Hatena Blog through the Atom Publishing Protocol (RFC 5023) and authenticates with an `X-WSSE` UsernameToken header. The model covers these parts:

- **Processor**: the Markdown pass that removes Obsidian syntax from text nodes. It deletes `%%…%%` comments first, then turns `[[target|display]]` links into plain text.
- **Frontmatter**: the frontmatter handling.
  - It splits the leading `---` YAML block from the body and writes frontmatter back.
  - It chooses the title: a truthy frontmatter `title`, else the first `# ` heading, else the file name without `.md`.
  - It chooses the categories: `categories`, else `tags`, else none.
- **HatenaClient**: the client side of the wire format.
  - the blog user id taken from the root endpoint;
  - the Atom entry document (RFC 4287 section 4.1.2) with its `category` elements and its `app:draft` flag (RFC 5023 section 13.1);
  - the Hatena Fotolife upload envelope;
  - the choice of links in a reply (`rel="edit"`, `rel="alternate"`);
  - the requests that create, update and upload.
- **Wsse**: the `X-WSSE` header. The nonce is hashed as its decimal digits, and the `Nonce` field carries the base 64 of those digits.
- **PostCommand**: the post command.
  - the configuration check and the values the dialog opens with;
  - the conversion of bytes to base 64;
  - the image embed substitution loop;
  - the draft and update routing;
  - the write-back of the reply's links into the frontmatter.
- **PostModal**: the post dialog. It parses and displays the category text, and its confirm button hands on the edited fields.

Supporting modules specify what the code relies on:

- **Text**: JavaScript string operations.
- **Bytes**: Latin-1 and UTF-8 conversion.
- **Base64**: `btoa`, that is base 64 as in section 4 of RFC 4648.
- **HtmlEscape**: `he.escape`, with an inverse for the round-trip proofs.
- **Values**: JavaScript and YAML values, objects as ordered key lists, truthiness, and object spread.

The YAML parser and serialiser, the Markdown-to-HTML conversion, the network, file lookup, random bytes, the clock and SHA-1 are all function parameters.

JavaScript semantics are written out where the code depends on them:

- regular expressions with first-match, backtracking behaviour;
- `String.prototype.replace` with a string pattern: only the first occurrence is replaced, and `$` patterns in the replacement are expanded;
- `??` and truthiness;
- `split`, `trim` and `filter`.

## Model

| member | source | states |
|---|---|---|
| Processor.NextMarker | src/markdown/processor.ts:15 | the next `%%` from a position: it is a marker, and none comes earlier; nothing when there is none |
| Processor.StripComments | src/markdown/processor.ts:15 | comment removal never lengthens the text |
| Processor.NoMarkerUnchanged | src/markdown/processor.ts:15 | a text without `%%` is unchanged by comment removal |
| Processor.NoPercentNoMarker | src/markdown/processor.ts:15 | a text without `%` holds no comment marker |
| Processor.ClosingMarker | src/markdown/processor.ts:15 | after an opening `%%`, the closing marker is the nearest following `%%` (shortest match), even when a lone `%` comes before it |
| Processor.CommentRemoved | src/markdown/processor.ts:15 | the span from a `%%` to the nearest following `%%` is deleted, inclusive; the text before it is kept and removal continues after it; text on either side may hold a lone `%` |
| Processor.UnclosedMarkerKept | src/markdown/processor.ts:15 | a `%%` with no later `%%` stays as literal text, with the text before it |
| Processor.PlainPrefix | src/markdown/processor.ts:15 | text with no `%%` that does not end in `%` is copied unchanged in front of whatever follows it |
| Processor.SinglePercentKept | src/markdown/processor.ts:15 | a lone `%` followed by text without `%%` is not a comment and stays |
| Processor.UnclosedAlone | src/markdown/processor.ts:15 | an opening `%%` with no closing one stays with the text after it |
| Processor.CommentExample | src/markdown/processor.ts:15 | `"a %% drop %% b"` becomes `"a  b"` |
| Processor.PercentInsideComment | src/markdown/processor.ts:15 | `"a %%50% off%% b"` becomes `"a  b"`: a lone `%` does not end a comment |
| Processor.LinkText | src/markdown/processor.ts:22-23 | the displayed text of a link is never longer than its body and is non-empty for a non-empty body |
| Processor.LinkTextPlain | src/markdown/processor.ts:22-23 | `[[Page]]` shows `Page` |
| Processor.LinkTextAlias | src/markdown/processor.ts:22-23 | `[[Page` + bar + `Show]]` shows the text after the first bar when it is non-empty (bar: the vertical-bar character) |
| Processor.LinkTextEmptyAlias | src/markdown/processor.ts:22-23 | with an empty alias the whole body, bar included, is shown |
| Processor.LinkAt | src/markdown/processor.ts:21 | a link match at the front spans at least `[[`, its body and `]]` |
| Processor.RewriteLinks | src/markdown/processor.ts:20-23 | the link rewrite never lengthens the text |
| Processor.NoBracketUnchanged | src/markdown/processor.ts:20-23 | a text without `]` holds no link and is unchanged |
| Processor.LinkReplaced | src/markdown/processor.ts:20-23 | `[[inner]]`, with `inner` non-empty and free of `]`, is replaced by its displayed text, and the scan continues after it |
| Processor.EmptyLinkKept | src/markdown/processor.ts:21 | `[[]]` is not a link and stays as it is |
| Processor.CopiedChar | src/markdown/processor.ts:21 | a character other than `[` is copied and the scan moves on |
| Processor.RewriteLinksAppend | src/markdown/processor.ts:20-23 | a prefix without `[` is copied unchanged in front of the rewritten rest |
| Processor.NormalizeText | src/markdown/processor.ts:13-24 | a text node's value after both rewrites, comments first, is never longer |
| Processor.StripNode | src/markdown/processor.ts:13-16 | the first traversal: only `text` nodes change, their value loses its comments, never grows, and stays as it is without `%%` |
| Processor.LinkNode | src/markdown/processor.ts:19-24 | the second traversal: only `text` nodes change, their value has its links rewritten, never grows, and stays as it is without `]` |
| Processor.NormalizeNode | src/markdown/processor.ts:13-24 | only nodes of type `text` change; their value becomes the comment-free, link-free text; the type is kept |
| Processor.RemoveObsidianSyntax | src/markdown/processor.ts:11-26 | in place over the nodes: every node becomes its normalised form (two full traversals) |
| Processor.CommentsBeforeLinks | src/markdown/processor.ts:13-24 | comments are removed from the whole value before any link is rewritten |
| Processor.LinkInsideCommentVanishes | src/markdown/processor.ts:13-24 | `%%[[Secret]]%%` disappears entirely |
| Frontmatter.Opening | src/markdown/frontmatter.ts:4 | the block must open at offset 0 with `---` and a line break |
| Frontmatter.FindClosing | src/markdown/frontmatter.ts:4 | the closing `\r?\n---` found is the first one after the opening; none when there is none |
| Frontmatter.MatchFrontmatter | src/markdown/frontmatter.ts:4 | no match exactly when there is no opening or no closing delimiter; a match fits in the content and its YAML text holds no `\n---` |
| Frontmatter.FirstClosingLeavesNoDashes | src/markdown/frontmatter.ts:4 | text before the first closing delimiter holds no `\n---` |
| Frontmatter.ObjectOf | src/markdown/frontmatter.ts:22-28 | YAML that parses to anything other than an object or array gives `{}` |
| Frontmatter.ParseFrontmatter | src/markdown/frontmatter.ts:6-31 | without a match: `{}` and the content as body; the body is always a suffix of the content; YAML that throws gives `{}` and the body is still stripped; YAML that parses gives ObjectOf of the parsed value, so a non-object gives `{}` |
| Frontmatter.ParseKeepsBody | src/markdown/frontmatter.ts:19-20 | on a match the body is exactly what follows the matched prefix |
| Frontmatter.MatchWritten | src/markdown/frontmatter.ts:4 | a block `---\n y \n---\n` is matched with exactly `y` as its YAML text |
| Frontmatter.AdjacentDelimitersNotFrontmatter | src/markdown/frontmatter.ts:4 | `---\n---\n` followed by one line is not frontmatter, since the closing delimiter needs a line break before it |
| Frontmatter.ParseWritten | src/markdown/frontmatter.ts:6-31 | a written block whose YAML parses to an object reads back to that object and the body |
| Frontmatter.UpdateFrontmatter | src/markdown/frontmatter.ts:33-43 | the result starts with `---\n` and ends with the original body |
| Frontmatter.UpdateReadsBack | src/markdown/frontmatter.ts:33-43 | when the serialiser and parser agree, the updated note parses to the merged frontmatter and the unchanged body |
| Frontmatter.UpdateOverrides | src/markdown/frontmatter.ts:39 | keys in `updates` override existing keys; every other key keeps its value |
| Frontmatter.SpaceRunEnd | src/markdown/frontmatter.ts:51 | the end of a run of whitespace: everything up to it is whitespace, and what follows is not |
| Frontmatter.LineEnd | src/markdown/frontmatter.ts:51 | the end of a line: the next line terminator or the end of the text |
| Frontmatter.LastInLine | src/markdown/frontmatter.ts:51 | the last position in a range that is not a line terminator, if any |
| Frontmatter.HeadingAt | src/markdown/frontmatter.ts:51 | a match of `^#\s+(.+)$` starts with `#` at a line start and captures a non-empty line fragment |
| Frontmatter.FirstHeadingPos | src/markdown/frontmatter.ts:51 | the search finds a position where the heading pattern matches with no match before it, or finds nothing only when no position matches |
| Frontmatter.FirstHeadingFrom | src/markdown/frontmatter.ts:51 | the capture at the first position from `from` where the heading pattern matches, with no match before it; none means no position matches |
| Frontmatter.NoHeadingFrom | src/markdown/frontmatter.ts:51 | when no position matches, no heading is found |
| Frontmatter.LineAt | src/markdown/frontmatter.ts:51 | a line fragment that ends at a line terminator or at the end of the text ends its line |
| Frontmatter.HeadingCapture | src/markdown/frontmatter.ts:51 | at the start of any line, `#`, one whitespace character and a line capture that line |
| Frontmatter.StripMd | src/markdown/frontmatter.ts:57 | `.md` is removed only at the very end of the file name |
| Frontmatter.StripMdExamples | src/markdown/frontmatter.ts:57 | `post.md` gives `post`; `post.md.bak` and `post` are kept |
| Frontmatter.ExtractTitle | src/markdown/frontmatter.ts:45-58 | a truthy frontmatter title wins as it is; else the title is the trimmed capture at the first position where the heading pattern matches; with no match, the file name without `.md` |
| Frontmatter.HeadingTitle | src/markdown/frontmatter.ts:51-54 | `# Title` after any lines without `#` gives the trimmed heading text |
| Frontmatter.FirstHeadingSearch | src/markdown/frontmatter.ts:51 | the search result is the capture at the first matching position, and nothing when no position matches |
| Frontmatter.FirstHeadingIs | src/markdown/frontmatter.ts:51 | a matching position with no match before it is the one the search finds |
| Frontmatter.HeadingAfterIntro | src/markdown/frontmatter.ts:51-54 | `"intro\n# T"` has the title `T` |
| Frontmatter.HeadingAfterBlankLine | src/markdown/frontmatter.ts:51-54 | `"\n# T"` has the title `T` |
| Frontmatter.HashThenNewlineTitle | src/markdown/frontmatter.ts:51-54 | `#` followed by a line break takes the next line as the title, because `\s+` crosses lines |
| Frontmatter.BlankHeadingCapture | src/markdown/frontmatter.ts:51 | `#` followed only by blanks captures the last blank |
| Frontmatter.BlankHeadingGivesEmptyTitle | src/markdown/frontmatter.ts:51-54 | such a heading gives the empty title rather than the file name |
| Frontmatter.SecondLevelNotHeading | src/markdown/frontmatter.ts:51 | `##` never starts a heading match |
| Frontmatter.SecondLevelFallsBack | src/markdown/frontmatter.ts:51-57 | a note whose only heading is `## …` takes its title from the file name |
| Frontmatter.ExtractCategories | src/markdown/frontmatter.ts:60-68 | the `categories` array if it is an array, else the `tags` array if that is one, else `[]` |
| HatenaClient.Capture | src/api/hatena-client.ts:12-15 | the captured user id is non-empty and holds no `/` |
| HatenaClient.FirstMatch | src/api/hatena-client.ts:12-15 | the first position where `blog.hatena.ne.jp/` is followed by a character other than `/` |
| HatenaClient.UserId | src/api/hatena-client.ts:12-15 | the user id holds no `/`, and it is `''` exactly when the endpoint has no match |
| HatenaClient.UserIdIsFirstMatch | src/api/hatena-client.ts:12-15 | the user id is the capture at the first match |
| HatenaClient.UserIdOfEndpoint | src/api/hatena-client.ts:12-15 | `https://blog.hatena.ne.jp/<user>/…` gives `<user>` |
| HatenaClient.CategoryElementsIsJoin | src/api/hatena-client.ts:87-89 | one `<category term="…" />` per category, in order with duplicates kept, joined by `"\n  "` |
| HatenaClient.ParseCategory | src/api/hatena-client.ts:88 | reading one category element consumes its opening tag and shortens the text |
| HatenaClient.ParseOneCategory | src/api/hatena-client.ts:88 | one category element reads back to its term, since the term is escaped |
| HatenaClient.ParseCategoryElements | src/api/hatena-client.ts:87-89 | the joined category elements read back to the category list, whatever follows them |
| HatenaClient.MarkupFreeHasNo | src/api/hatena-client.ts:88-94 | escaped text holds no `<` and no `"` |
| HatenaClient.TextBeforeTag | src/api/hatena-client.ts:93-94 | escaped text stops at the next tag |
| HatenaClient.DraftSection | src/api/hatena-client.ts:96-98 | the two values of the draft flag give different documents, and no category follows the control section |
| HatenaClient.ParseBuild | src/api/hatena-client.ts:86-100 | the entry document reads back to the entry: title, content, categories in order and the draft flag |
| HatenaClient.BuildInjective | src/api/hatena-client.ts:86-100 | equal documents come only from equal entries |
| HatenaClient.BuildAtomXml | src/api/hatena-client.ts:86-100 | the entry document ends in `<app:draft>yes</app:draft>…` exactly when the entry is a draft, whatever the title, content and categories hold |
| HatenaClient.DraftTailFlag | src/api/hatena-client.ts:96-98 | the control section says `yes` exactly for a draft |
| HatenaClient.EndsWithAppend | src/api/hatena-client.ts:91-99 | a suffix test on a template looks only at its tail |
| HatenaClient.UploadXml | src/api/hatena-client.ts:62-66 | the upload envelope reads back to file name, payload and MIME type when the type has no `"` and the payload no `<`; only the file name is escaped |
| HatenaClient.ParseUploadOfBytes | src/api/hatena-client.ts:62-66 | with a base 64 payload any file's envelope reads back |
| HatenaClient.SelectHref | src/api/hatena-client.ts:106-111 | the href of the first link with the given `rel`; nothing when it is missing or empty |
| HatenaClient.ParseAtomResponse | src/api/hatena-client.ts:102-114 | the member URI comes from the first `edit` link and the public URL from the first `alternate` link; each is missing exactly when that link is absent or its href is missing or empty |
| HatenaClient.SelectHrefIgnoresLater | src/api/hatena-client.ts:106-111 | links after the first matching one do not change the result |
| HatenaClient.ImageId | src/api/hatena-client.ts:79-83 | the text of the first `hatena:syntax` element; nothing when it is missing or empty |
| HatenaClient.PostEntryRequest | src/api/hatena-client.ts:21-36 | POST to `rootEndpoint + "/entry"` with the client's `X-WSSE` header for this request and a body that reads back to the entry |
| HatenaClient.UpdateEntryRequest | src/api/hatena-client.ts:38-53 | PUT to the member URI with the client's `X-WSSE` header for this request and a body that reads back to the entry |
| HatenaClient.UploadImageRequest | src/api/hatena-client.ts:55-77 | POST to Hatena Fotolife with the client's `X-WSSE` header and the Atom `Accept` list, and an envelope that reads back to its parts |
| HatenaClient.CreateAndUpdateAgree | src/api/hatena-client.ts:21-53 | for the same nonce, time and digest function, creating and updating send the same document and headers, with different methods |
| HatenaClient.WsseHeader | src/api/hatena-client.ts:17-19 | the client's header names its user id and the time, and a server holding its API key accepts it (when neither holds a `"`) |
| Wsse.NonceString | src/api/wsse.ts:5-9 | the nonce digit string holds digits only and is 1 to 3 characters per byte |
| Wsse.ShortNonceString | src/api/wsse.ts:9 | the digit string is as long as the nonce only when every byte is below 10 |
| Wsse.Render | src/api/wsse.ts:16 | the header lists Username, PasswordDigest, Nonce and Created in that order and reads back to them when none holds a `"` |
| Wsse.FieldConcat | src/api/wsse.ts:16 | one field reads back to its value |
| Wsse.DigestField | src/api/wsse.ts:12-13 | the password digest is 28 characters |
| Wsse.DigestFieldIs | src/api/wsse.ts:12-13 | the password digest is the base 64 of the digest bytes |
| Wsse.DigestFieldShape | src/api/wsse.ts:12-13 | 27 alphabet characters followed by one `=` |
| Wsse.NonceField | src/api/wsse.ts:14 | the `Nonce` field is base 64 text that decodes to the ASCII codes of the digit string |
| Wsse.DigestInput | src/api/wsse.ts:9-10 | the hashed bytes are the UTF-8 of the nonce digits, then of the time, then of the API key |
| Wsse.GenerateHeader | src/api/wsse.ts:1-17 | the header reads back to the user name, the base 64 of SHA-1 over the digest input, the nonce field and the time, when the user name and time hold no `"` |
| Wsse.NonceFieldIsNotRawNonce | src/api/wsse.ts:14 | the `Nonce` field never decodes to the raw nonce bytes |
| Wsse.HeaderAccepted | src/api/wsse.ts:1-17 | the header reads back to the user name and time, and a server that hashes the decoded nonce, the time and the API key in that order accepts it |
| Wsse.DigitsAreAscii | src/api/wsse.ts:9-14 | a digit string is ASCII, so `btoa` accepts it |
| Wsse.NoQuoteInBase64 | src/api/wsse.ts:13-14 | base 64 text holds no `"` |
| Base64.Encode | src/api/wsse.ts:13-14 | the output has length 4·⌈n/3⌉ and uses only the alphabet and `=` |
| Base64.EncodedLengthIs | src/api/wsse.ts:13-14 | the encoded length is `4 * ((n + 2) / 3)` |
| Base64.DecodeEncode | src/commands/post-command.ts:137-144 | decoding the encoding gives the bytes back |
| Base64.DecodeEncodeStep | src/commands/post-command.ts:137-144 | one group of three bytes decodes back |
| Base64.DecodeOneByte | src/commands/post-command.ts:137-144 | a final single byte (two `=`) decodes back |
| Base64.DecodeTwoBytes | src/commands/post-command.ts:137-144 | a final pair of bytes (one `=`) decodes back |
| Base64.ValueOfCharOf | src/commands/post-command.ts:137-144 | every six-bit value's character maps back to it |
| Base64.Padding | src/api/wsse.ts:13 | padding is exactly what the byte count calls for |
| Base64.Btoa | src/api/wsse.ts:13-14 | `btoa` accepts exactly the Latin-1 strings |
| Bytes.Latin1String | src/commands/post-command.ts:139-142 | one character per byte, code equal to the byte |
| Bytes.Latin1RoundTrip | src/commands/post-command.ts:139-143 | the characters of the bytes give the bytes back |
| Bytes.Utf8Encode | src/api/wsse.ts:10-12 | the UTF-8 encoding is 1 to 4 bytes per character |
| Bytes.Utf8Append | src/api/wsse.ts:10-12 | encoding a concatenation concatenates the encodings |
| Bytes.Utf8Ascii | src/api/wsse.ts:10-12 | ASCII text encodes to its character codes |
| Text.DecimalString | src/api/wsse.ts:9 | a decimal rendering is digits only; one digit exactly below 10 |
| Text.DecimalStringValue | src/api/wsse.ts:9 | the rendering reads back to the number |
| Text.ReplaceFirst | src/commands/post-command.ts:82 | a string with no occurrence is unchanged |
| Text.ReplaceFirstPlain | src/commands/post-command.ts:82 | a `$`-free replacement takes the place of the first occurrence only |
| Text.Split | src/ui/post-modal.ts:56 | at least one piece, none holding the separator |
| Text.JoinSplit | src/ui/post-modal.ts:56 | joining the pieces with the separator gives the text back |
| Text.Trim | src/ui/post-modal.ts:57 | the result is trimmed and no longer |
| Text.TrimPadded | src/ui/post-modal.ts:57 | blanks around trimmed text are removed and nothing else |
| Text.IndexOf | src/commands/post-command.ts:82 | the first occurrence, or nothing exactly when there is none |
| HtmlEscape.Escape | src/api/hatena-client.ts:88-94 | escaped text holds none of `& < > " ' \`` outside a reference and is no shorter |
| HtmlEscape.UnescapeEscape | src/api/hatena-client.ts:88-94 | unescaping the escaped text gives it back |
| HtmlEscape.EscapeAppend | src/api/hatena-client.ts:88-94 | escaping works character by character |
| HtmlEscape.EscapePlain | src/api/hatena-client.ts:88-94 | text without special characters is unchanged |
| HtmlEscape.UnescapeReference | src/api/hatena-client.ts:88-94 | each of the six references reads back to its character |
| Values.Get | src/markdown/frontmatter.ts:46-48 | a property lookup: nothing exactly when the key is absent |
| Values.Assign | src/commands/post-command.ts:114-121 | the key takes the value; every other key keeps its value |
| Values.AssignNewKey | src/commands/post-command.ts:114-121 | a new key is appended at the end |
| Values.AssignExistingKey | src/commands/post-command.ts:114-121 | an existing key keeps its place |
| Values.AssignKeepsUnique | src/commands/post-command.ts:114-121 | assignment keeps keys unique |
| Values.SpreadOverrides | src/markdown/frontmatter.ts:39 | `{ ...base, ...updates }`: keys of `updates` win, others keep their base values |
| Values.Spread | src/markdown/frontmatter.ts:39 | `{ ...base, ...updates }` keeps every key of both objects, and a key `updates` lacks keeps its base value |
| Values.SpreadKeepsUnique | src/markdown/frontmatter.ts:39 | spreading keeps keys unique |
| Values.Truthy | src/markdown/frontmatter.ts:46 | undefined and null are falsy; a string is truthy exactly when non-empty |
| Values.IndexRecord | src/markdown/frontmatter.ts:22-28 | a YAML array as an object: keys `"0"`, `"1"`, … in order |
| Values.IndexRecordHasNoNamedKeys | src/markdown/frontmatter.ts:22-28 | such an object has no named key like `title` |
| Values.JoinValues | src/ui/post-modal.ts:53 | `join` on string values is the strings joined with the separator |
| PostCommand.ArrayBufferToBase64 | src/commands/post-command.ts:137-144 | appending one Latin-1 character per byte, then `btoa`, gives the standard base 64 of the bytes |
| PostCommand.EmbedAt | src/commands/post-command.ts:14 | an embed match is `![[path]]` with a non-empty path free of `]` |
| PostCommand.ImageMatches | src/commands/post-command.ts:14 | every matched path is non-empty and free of `]` |
| PostCommand.EmbedAtEmbed | src/commands/post-command.ts:14 | an embed is matched with its path |
| PostCommand.NoBangNoMatches | src/commands/post-command.ts:14 | text without `!` has no embed |
| PostCommand.MatchesAfterPlainText | src/commands/post-command.ts:14 | text without `!` in front does not change the matches |
| PostCommand.OneEmbed | src/commands/post-command.ts:14 | text around one embed yields exactly that path |
| PostCommand.UploadedId | src/commands/post-command.ts:79-81 | only a returned, non-empty id is substituted; a thrown error or `null` gives none |
| PostCommand.Step | src/commands/post-command.ts:68-88 | one turn changes the body only when the file is found and the upload yields an id |
| PostCommand.ProcessImages | src/commands/post-command.ts:67-89 | the loop computes the substitution over all matches of the original body in turn |
| PostCommand.NoUploadNoChange | src/commands/post-command.ts:72-88 | when no file is found, or no upload yields an id, the body is unchanged |
| PostCommand.SubstituteImages | src/commands/post-command.ts:67-89 | when no file is found, or no upload yields an id, the body is left unchanged |
| PostCommand.EmbedFirstAt | src/commands/post-command.ts:82 | an embed with no `!` before it is the first occurrence of its text |
| PostCommand.ReplaceEmbed | src/commands/post-command.ts:82 | that embed is replaced by `[id]` and the rest is kept |
| PostCommand.OneEmbedReplaced | src/commands/post-command.ts:67-89 | a successful upload replaces its embed by `[id]` and keeps the surrounding text |
| PostCommand.IsDraft | src/commands/post-command.ts:36 | the frontmatter `draft` unless it is null or missing, else the default; an explicit boolean wins, and any other present value is taken by its truthiness |
| PostCommand.IsUpdate | src/commands/post-command.ts:35 | a missing or null member URI means a new entry; a string one means an update exactly when it is not empty |
| PostCommand.ExplicitFalseWins | src/commands/post-command.ts:36 | `draft: false` gives a non-draft whatever the default |
| PostCommand.RouteOf | src/commands/post-command.ts:103-110 | create exactly when the member URI is falsy; update targets that URI |
| PostCommand.StringsOf | src/commands/post-command.ts:96-101 | the strings of string values |
| PostCommand.BuildEntry | src/commands/post-command.ts:96-101 | the entry holds the chosen title, categories, draft flag and HTML; none when a title or category is not a string, since escaping it throws |
| PostCommand.PlanRequest | src/commands/post-command.ts:96-110 | PUT to the member URI exactly when updating; POST to `<root>/entry` otherwise; the `X-WSSE` header comes from the settings' credentials; the body reads back to the entry |
| PostCommand.AssignPresent | src/commands/post-command.ts:117-122 | the key is set only for a present, non-empty value |
| PostCommand.WriteBack | src/commands/post-command.ts:113-122 | title and categories are always overwritten with what was posted; every key other than those and the two reply links keeps its value |
| PostCommand.WriteBackMemberUri | src/commands/post-command.ts:117-119 | the member URI changes only when the reply has one |
| PostCommand.WriteBackUrl | src/commands/post-command.ts:120-122 | the public URL changes only when the reply has one |
| PostCommand.WriteBackRoutesToUpdate | src/commands/post-command.ts:103-122 | after a post with a member URI, the next post updates that entry |
| PostCommand.FrontMatterFile.WriteBackResponse | src/commands/post-command.ts:113-122 | the frontmatter in place becomes the written-back frontmatter |
| PostCommand.StartPost | src/commands/post-command.ts:16-48 | missing key or endpoint stops first; no note stops next; else the dialog opens with the frontmatter and body parsed from the note, and the title, categories, draft and update flags computed from them |
| PostCommand.ConfigCheckedFirst | src/commands/post-command.ts:19-22 | with no configuration the note is never looked at |
| PostCommand.DefaultSettingsAskForConfig | src/commands/post-command.ts:19-22 | a fresh installation asks for configuration |
| PostCommand.PublishOutcome | src/commands/post-command.ts:50-135 | a conversion that throws fails; a non-string title or category, or a member URI that is not a string, fails; `Posted` exactly when the body converts, a request is built and a reply comes back, carrying the response read from that reply |
| PostCommand.PublishPost | src/commands/post-command.ts:50-135 | on success the frontmatter is written back; on any failure it is left unchanged |
| PostModal.TrimNonEmpty | src/ui/post-modal.ts:56-58 | every kept piece is non-empty, trimmed and comma-free |
| PostModal.ParseCategoryList | src/ui/post-modal.ts:55-58 | every parsed category is non-empty, trimmed and comma-free |
| PostModal.CategoriesText | src/ui/post-modal.ts:53 | the field shows string categories joined with `", "` |
| PostModal.ParseFirst | src/ui/post-modal.ts:55-58 | pieces are read in order |
| PostModal.ParseBlanks | src/ui/post-modal.ts:55-58 | blank pieces are dropped |
| PostModal.ParseJoined | src/ui/post-modal.ts:53-58 | the `", "` join of clean categories parses back to them |
| PostModal.DisplayRoundTrip | src/ui/post-modal.ts:53-58 | the displayed text of clean categories parses back to the same list |
| PostModal.ParseIdempotent | src/ui/post-modal.ts:53-58 | parsing, displaying and parsing again gives the same list |
| PostModal.PostModal.constructor | src/ui/post-modal.ts:11-27 | the fields start as given |
| PostModal.PostModal.EditTitle | src/ui/post-modal.ts:43-45 | only the title changes |
| PostModal.PostModal.EditCategories | src/ui/post-modal.ts:55-58 | only the categories change, to the parsed text |
| PostModal.PostModal.ToggleDraft | src/ui/post-modal.ts:66-68 | only the draft flag changes |
| PostModal.PostModal.Confirm | src/ui/post-modal.ts:83-90 | the payload is the current title, categories and draft flag |
| PostModal.ConfirmUnedited | src/ui/post-modal.ts:83-90 | unedited fields are passed on with their initial values |
| PostModal.RetypeCategories | src/ui/post-modal.ts:53-58 | re-typing the shown category text keeps clean categories |

## Left out

- The unified/remark/rehype conversion from Markdown to HTML (`createMarkdownProcessor`, `convertMarkdownToHtml`) is third-party parsing and rendering. It is the parameter `convert`, which gives nothing when the conversion throws.
- `getExpressiveCodeStyles` is a call into a foreign engine.
- `src/commands/export-css-command.ts` is clipboard and notice code only.
- The plugin wiring in `src/main.ts` and the settings tab in `src/settings.ts` are left out. The settings are only the `Types.Settings` record and its defaults.
- `src/types.ts` holds declarations only. Its records appear as datatypes.
- The YAML parser and serialiser are function parameters that may throw.
- The reply is not parsed with `DOMParser`. It is given as a list of `(rel, href)` link records, and the upload reply as a list of `(name, text)` elements.
- `mime.getType` is a parameter. The upload's file name is given as it is, without computing the base name.
- Random nonce bytes, the clock and SHA-1 are parameters. Base 64 is written out.
- `requestUrl`, vault reads, the metadata cache, notices and modal rendering are Obsidian input and output and are left out. A request is a record; sending it is the parameter `send`, which gives the reply's links or nothing when it throws.
- Processor.RemoveObsidianSyntax: the Markdown tree is given as its nodes in visiting order, so its shape and nesting are not modelled.
- Values: numbers are integers. Floating point, `NaN` and JavaScript's ordering of integer-like keys before other keys are not modelled.
- Strings are sequences of Unicode scalar values, not of UTF-16 code units. A character outside the Basic Multilingual Plane is one `char` here but two units in JavaScript, so lengths and indices differ for such text. Lone surrogates cannot occur.
- PostCommand.PublishOutcome: a truthy `hatena-member-uri` that is not a string is treated as a failed request. The source would send it through `requestUrl` after converting it to a string.
- The texts of notices and the error-reporting paths are left out, apart from their effect on the outcome.
- Wsse.HeaderAccepted: the header reads back only when the user id and the time hold no `"`. The source inserts the user name unescaped.
