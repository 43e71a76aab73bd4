/**
 * The client-side `useToc` composable: its own copy of the heading `slugify`,
 * its own markdown-it instance (the same options as the server's renderer
 * but without the KaTeX plugin and without a highlighter) and an `extract`
 * that walks the token stream exactly as the server's `extractToc` does.
 */
module UseToc {
  import opened Wrappers
  import JsText
  import Uri
  import MarkdownParser

  /** The client's `slugify`, written out again in the composable. */
  function Slugify(str: string): (id: string)
    ensures id == MarkdownParser.Slugify(str)
  {
    Uri.EncodeURIComponent(JsText.ReplaceRuns(JsText.Trim(JsText.Lower(str)), JsText.IsSpace, "-"))
  }

  /** The client's markdown-it configuration: no KaTeX, no highlighter, the
      same anchor levels and slug function. */
  const ClientRenderer := MarkdownParser.Renderer(true, true, true, false, "", [], [1, 2, 3], false)

  /** `extract(markdown)`: parse with the client instance and collect the
      level-1 to level-3 headings that are followed by an `inline` token. */
  method Extract(markdown: Option<string>, parse: (MarkdownParser.Renderer, string) -> seq<MarkdownParser.Token>)
    returns (toc: seq<MarkdownParser.TocEntry>)
    ensures toc == MarkdownParser.TocOf(parse(ClientRenderer, MarkdownParser.OrEmpty(markdown)))
  {
    toc := [];
    var tokens := parse(ClientRenderer, MarkdownParser.OrEmpty(markdown));
    var i := 0;
    while i < |tokens|
      invariant 0 <= i <= |tokens|
      invariant toc == MarkdownParser.Toc(tokens, i)
    {
      MarkdownParser.TocStep(tokens, i);
      var token := tokens[i];
      if token.kind == "heading_open" {
        var level := MarkdownParser.HeadingLevel(token.tag);
        if level.Some? && level.value >= 1 && level.value <= 3 {
          if i + 1 < |tokens| && tokens[i + 1].kind == "inline" {
            var text := tokens[i + 1].content;
            var id := Slugify(text);
            toc := toc + [MarkdownParser.TocEntry(id, text, level.value)];
          }
        }
      }
      i := i + 1;
    }
  }

  /** When the two instances produce the same tokens (a document without
      math), the client's outline and the server's `extractToc` are the same
      list, ids included. The loops are proved elsewhere: `Extract` and
      `RendererCache.ExtractToc` each return `TocOf` of their own token
      stream (the server's once its renderer has been built), so with equal
      streams this lemma only joins the two sides. */
  lemma ClientMatchesServer(markdown: Option<string>, parse: (MarkdownParser.Renderer, string) -> seq<MarkdownParser.Token>)
    requires parse(ClientRenderer, MarkdownParser.OrEmpty(markdown))
          == parse(MarkdownParser.Configured, MarkdownParser.OrEmpty(markdown))
    ensures MarkdownParser.TocOf(parse(ClientRenderer, MarkdownParser.OrEmpty(markdown)))
         == MarkdownParser.TocOfMarkdown(markdown, parse)
  {
  }
}
