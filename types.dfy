/** The plugin's records: settings, the entry sent to Hatena Blog, the reply it gives, the choices made in the dialog. */
module Types {
  import opened Optional
  import opened Values

  datatype Settings = Settings(apiKey: string, rootEndpoint: string, theme: string, defaultDraft: bool)

  /** The settings of a fresh installation: no credentials, the `github-dark` theme, drafts by default. */
  const DefaultSettings := Settings("", "", "github-dark", true)

  /** An Atom entry as the client sends it. */
  datatype HatenaEntry = HatenaEntry(title: string, content: string, categories: seq<string>, draft: bool)

  /** The member URI (`rel="edit"`) and the public URL (`rel="alternate"`) of a posted entry; `null` is nothing. */
  datatype HatenaResponse = HatenaResponse(memberUri: Option<string>, hatenaUrl: Option<string>)

  /**
   * What the post dialog hands on when confirmed. Title and categories
   * are values, not strings: a title or category read from the
   * frontmatter is passed on unchanged whatever YAML made of it, and only
   * the dialog's text fields produce strings.
   */
  datatype PostOptions = PostOptions(title: Value, categories: seq<Value>, isDraft: bool)

  /** The frontmatter, as the object the YAML block parses to. */
  type FrontmatterData = Record
}
