/**
 * The server's Markdown pipeline: the heading `slugify` handed to the anchor
 * plugin, the table-of-contents walk over markdown-it's token stream, the
 * fenced-code highlight callback with its plain fallback, and the lazily
 * built, memoised renderer.
 *
 * markdown-it, its plugins and the Shiki highlighter are not modelled: the
 * token stream a renderer produces, the HTML it renders and the highlighting
 * engine are inputs (functions) of the operations below.
 */
module MarkdownParser {
  import opened Wrappers
  import JsText
  import Uri

  // ----- heading slugs -----

  /** The heading text as `slugify` sees it before percent-encoding:
      lower-cased, trimmed, each white-space run turned into one `-`. */
  function Normalize(str: string): string {
    JsText.ReplaceRuns(JsText.Trim(JsText.Lower(str)), JsText.IsSpace, "-")
  }

  /** `slugify`: the id of a heading, for both the anchor plugin and the TOC. */
  function Slugify(str: string): string {
    Uri.EncodeURIComponent(Normalize(str))
  }

  /** The normalised text has no white space. */
  lemma NormalizeNoSpace(str: string)
    ensures JsText.NoSpace(Normalize(str))
  {
    JsText.ReplaceRunsLeavesNoClassChar(JsText.Trim(JsText.Lower(str)), JsText.IsSpace, "-");
  }

  /** A slug is made of `encodeURIComponent`'s unreserved characters and `%XX`
      triplets only, so it holds no white space. */
  lemma SlugifyIsEncoded(str: string)
    ensures Uri.IsEncoded(Slugify(str))
    ensures JsText.NoSpace(Slugify(str))
  {
    var n := Normalize(str);
    var r := Uri.EncodeURIComponent(n);
    Uri.EncodeIsEncoded(n);
    forall k | 0 <= k < |r| ensures !JsText.IsSpace(r[k]) {
      Uri.EncodedChars(r, k);
      EncodedCharIsNoSpace(r[k]);
    }
  }

  lemma EncodedCharIsNoSpace(c: char)
    requires Uri.IsUnreserved(c) || c == '%' || Uri.IsHexDigit(c)
    ensures !JsText.IsSpace(c)
  {
  }

  lemma SlugifyEmpty()
    ensures Slugify("") == ""
  {
    assert JsText.Trim("") == "";
  }

  /** A character that `slugify` leaves alone: a lower-case ASCII letter, a
      digit or `-`. */
  predicate IsPlainSlugChar(c: char) {
    JsText.IsAsciiLower(c) || JsText.IsAsciiDigit(c) || c == '-'
  }

  /** `slugify` is the identity on strings of lower-case ASCII letters, digits and `-`. */
  lemma SlugifyIdentity(str: string)
    requires forall k :: 0 <= k < |str| ==> IsPlainSlugChar(str[k])
    ensures Slugify(str) == str
  {
    JsText.LowerIdentity(str);
    assert JsText.NoSpace(str);
    JsText.TrimIdentity(str);
    JsText.ReplaceRunsIdentity(str, JsText.IsSpace, "-");
    Uri.EncodeIdentity(str);
  }

  /** Percent-decoding a slug gives back the normalised heading text, so
      non-ASCII text such as CJK survives as escapes rather than being dropped. */
  lemma SlugifyDecodes(str: string)
    ensures Uri.DecodeURIComponent(Slugify(str)) == Some(Normalize(str))
  {
    Uri.DecodeEncode(Normalize(str));
  }

  /** Two headings get the same id exactly when their normalised texts agree
      (so `slugify` is not injective: case and white space are lost). */
  lemma SlugifyCollides(s: string, t: string)
    ensures Slugify(s) == Slugify(t) <==> Normalize(s) == Normalize(t)
  {
    if Slugify(s) == Slugify(t) {
      Uri.EncodeInjective(Normalize(s), Normalize(t));
    }
  }

  // ----- table of contents -----

  /** A markdown-it token: its `type`, `tag` and `content`. */
  datatype Token = Token(kind: string, tag: string, content: string)

  datatype TocEntry = TocEntry(id: string, text: string, level: int)

  /** `parseInt(token.tag.substring(1))`. */
  function HeadingLevel(tag: string): Option<int> {
    JsText.ParseInt(if tag == [] then [] else tag[1..])
  }

  predicate IsTocLevel(level: Option<int>) {
    level.Some? && 1 <= level.value <= 3
  }

  /** Token `i` opens a heading of level 1 to 3 and the next token exists and
      is an `inline` token. */
  predicate Qualifies(tokens: seq<Token>, i: nat)
    requires i < |tokens|
  {
    && tokens[i].kind == "heading_open"
    && IsTocLevel(HeadingLevel(tokens[i].tag))
    && i + 1 < |tokens|
    && tokens[i + 1].kind == "inline"
  }

  /** The entry the heading opened by token `i` contributes: the next token's
      content, the content's slug and the heading level. */
  function EntryAt(tokens: seq<Token>, i: nat): (e: TocEntry)
    ensures e.id == Slugify(e.text)
  {
    var text := if i + 1 < |tokens| then tokens[i + 1].content else "";
    var tag := if i < |tokens| then tokens[i].tag else "";
    TocEntry(Slugify(text), text, HeadingLevel(tag).GetOr(0))
  }

  /** The entries contributed by the first `n` tokens. */
  function Toc(tokens: seq<Token>, n: nat): seq<TocEntry>
    requires n <= |tokens|
  {
    if n == 0 then []
    else Toc(tokens, n - 1) + (if Qualifies(tokens, n - 1) then [EntryAt(tokens, n - 1)] else [])
  }

  function TocOf(tokens: seq<Token>): seq<TocEntry> {
    Toc(tokens, |tokens|)
  }

  /** One more token adds the entry of the heading it opens, if it qualifies. */
  lemma TocStep(tokens: seq<Token>, i: nat)
    requires i < |tokens|
    ensures Qualifies(tokens, i) ==>
      Toc(tokens, i + 1) == Toc(tokens, i) + [TocEntry(Slugify(tokens[i + 1].content), tokens[i + 1].content, HeadingLevel(tokens[i].tag).value)]
    ensures !Qualifies(tokens, i) ==> Toc(tokens, i + 1) == Toc(tokens, i)
  {
  }

  /** The entries of a shorter prefix of the tokens come first, in the same order. */
  lemma {:induction false} TocPrefix(tokens: seq<Token>, m: nat, n: nat)
    requires m <= n <= |tokens|
    ensures |Toc(tokens, m)| <= |Toc(tokens, n)| && Toc(tokens, m) == Toc(tokens, n)[..|Toc(tokens, m)|]
  {
    if m < n {
      TocPrefix(tokens, m, n - 1);
    }
  }

  /** A qualifying heading's entry sits right after the entries of the
      tokens before it. */
  lemma EntryPosition(tokens: seq<Token>, n: nat, i: nat)
    requires i < n <= |tokens| && Qualifies(tokens, i)
    ensures |Toc(tokens, i)| < |Toc(tokens, n)| && Toc(tokens, n)[|Toc(tokens, i)|] == EntryAt(tokens, i)
  {
    var before := Toc(tokens, i);
    TocStep(tokens, i);
    assert Toc(tokens, i + 1) == before + [EntryAt(tokens, i)];
    TocPrefix(tokens, i + 1, n);
    assert Toc(tokens, n)[|before|] == Toc(tokens, i + 1)[|before|];
  }

  /** Every qualifying heading contributes its entry. */
  lemma QualifyingInToc(tokens: seq<Token>, n: nat, i: nat)
    requires i < n <= |tokens| && Qualifies(tokens, i)
    ensures EntryAt(tokens, i) in Toc(tokens, n)
  {
    EntryPosition(tokens, n, i);
  }

  /** Every entry is the one some qualifying heading contributes. */
  lemma {:induction false} TocFromQualifying(tokens: seq<Token>, n: nat, e: TocEntry)
    requires n <= |tokens| && e in Toc(tokens, n)
    ensures exists i :: 0 <= i < n && Qualifies(tokens, i) && EntryAt(tokens, i) == e
  {
    if e !in Toc(tokens, n - 1) {
      assert Qualifies(tokens, n - 1) && EntryAt(tokens, n - 1) == e;
    } else {
      TocFromQualifying(tokens, n - 1, e);
    }
  }

  /** An entry is in the TOC exactly when a qualifying heading contributes it. */
  lemma TocMembership(tokens: seq<Token>, e: TocEntry)
    ensures e in TocOf(tokens) <==>
      exists i :: 0 <= i < |tokens| && Qualifies(tokens, i) && EntryAt(tokens, i) == e
  {
    if e in TocOf(tokens) {
      TocFromQualifying(tokens, |tokens|, e);
    }
    if exists i :: 0 <= i < |tokens| && Qualifies(tokens, i) && EntryAt(tokens, i) == e {
      var i :| 0 <= i < |tokens| && Qualifies(tokens, i) && EntryAt(tokens, i) == e;
      QualifyingInToc(tokens, |tokens|, i);
    }
  }

  /** Every entry has a level in {1, 2, 3} and the slug of its text as id. */
  lemma TocEntriesWellFormed(tokens: seq<Token>, e: TocEntry)
    requires e in TocOf(tokens)
    ensures 1 <= e.level <= 3 && e.id == Slugify(e.text)
  {
    TocFromQualifying(tokens, |tokens|, e);
  }

  /** How many of the first `n` tokens are `heading_open` tokens. */
  function HeadingCount(tokens: seq<Token>, n: nat): nat
    requires n <= |tokens|
  {
    if n == 0 then 0
    else HeadingCount(tokens, n - 1) + (if tokens[n - 1].kind == "heading_open" then 1 else 0)
  }

  /** There are never more entries than `heading_open` tokens. */
  lemma {:induction false} TocNoLongerThanHeadings(tokens: seq<Token>, n: nat)
    requires n <= |tokens|
    ensures |Toc(tokens, n)| <= HeadingCount(tokens, n)
  {
    if n > 0 {
      TocNoLongerThanHeadings(tokens, n - 1);
    }
  }

  /** Two qualifying headings with the same text get the same id: ids are not
      made unique. */
  lemma RepeatedHeadingsShareId(tokens: seq<Token>, i: nat, j: nat)
    requires i < j < |tokens| && Qualifies(tokens, i) && Qualifies(tokens, j)
    requires tokens[i + 1].content == tokens[j + 1].content
    ensures exists k, l :: 0 <= k < l < |TocOf(tokens)| && TocOf(tokens)[k].id == TocOf(tokens)[l].id
  {
    EntryPosition(tokens, |tokens|, i);
    EntryPosition(tokens, |tokens|, j);
    TocStep(tokens, i);
    TocPrefix(tokens, i + 1, j);
    var k, l := |Toc(tokens, i)|, |Toc(tokens, j)|;
    assert TocOf(tokens)[k].id == EntryAt(tokens, i).id == EntryAt(tokens, j).id == TocOf(tokens)[l].id;
  }

  /** The token walk of `extractToc`: one pass over the tokens that appends
      the entry of every qualifying heading. */
  method TocWalk(tokens: seq<Token>) returns (toc: seq<TocEntry>)
    ensures toc == TocOf(tokens)
  {
    toc := [];
    var i := 0;
    while i < |tokens|
      invariant 0 <= i <= |tokens|
      invariant toc == Toc(tokens, i)
    {
      TocStep(tokens, i);
      var token := tokens[i];
      if token.kind == "heading_open" {
        var level := HeadingLevel(token.tag);
        if level.Some? && level.value >= 1 && level.value <= 3 {
          if i + 1 < |tokens| && tokens[i + 1].kind == "inline" {
            var text := tokens[i + 1].content;
            var id := Slugify(text);
            toc := toc + [TocEntry(id, text, level.value)];
          }
        }
      }
      i := i + 1;
    }
  }

  // ----- highlighting -----

  const Theme := "one-dark-pro"

  /** The grammars the highlighter is created with. */
  const Languages: seq<string> := ["js", "ts", "vue", "py", "bash", "sh", "json", "html", "css",
    "scss", "md", "yaml", "yml", "sql", "go", "rust", "java", "cpp", "c"]

  function EscapeChar(c: char): string {
    if c == '&' then "&amp;"
    else if c == '<' then "&lt;"
    else if c == '>' then "&gt;"
    else if c == '"' then "&quot;"
    else [c]
  }

  /** markdown-it's `escapeHtml`. */
  function EscapeHtml(s: string): string {
    if s == [] then [] else EscapeChar(s[0]) + EscapeHtml(s[1..])
  }

  /** The inverse of `escapeHtml`: the four entities become their characters again. */
  function UnescapeHtml(s: string): string
    decreases |s|
  {
    if s == [] then []
    else if |s| >= 5 && s[..5] == "&amp;" then "&" + UnescapeHtml(s[5..])
    else if |s| >= 4 && s[..4] == "&lt;" then "<" + UnescapeHtml(s[4..])
    else if |s| >= 4 && s[..4] == "&gt;" then ">" + UnescapeHtml(s[4..])
    else if |s| >= 6 && s[..6] == "&quot;" then "\"" + UnescapeHtml(s[6..])
    else [s[0]] + UnescapeHtml(s[1..])
  }

  /** Escaping can be undone: no code is lost in the plain fallback. */
  lemma {:induction false} UnescapeEscape(s: string)
    ensures UnescapeHtml(EscapeHtml(s)) == s
    decreases |s|
  {
    if s != [] {
      UnescapeEscape(s[1..]);
      UnescapeEscapeChar(s[0], EscapeHtml(s[1..]));
      assert [s[0]] + s[1..] == s;
    }
  }

  lemma UnescapeEscapeChar(c: char, rest: string)
    ensures UnescapeHtml(EscapeChar(c) + rest) == [c] + UnescapeHtml(rest)
  {
    if c == '&' {
      UnescapeAmp(rest);
    } else if c == '<' {
      UnescapeLt(rest);
    } else if c == '>' {
      UnescapeGt(rest);
    } else if c == '"' {
      UnescapeQuot(rest);
    } else {
      UnescapePlain(c, rest);
    }
  }

  lemma UnescapeAmp(rest: string)
    ensures UnescapeHtml("&amp;" + rest) == "&" + UnescapeHtml(rest)
  {
    var t := "&amp;" + rest;
    assert t[..5] == "&amp;" && t[5..] == rest;
  }

  lemma UnescapeLt(rest: string)
    ensures UnescapeHtml("&lt;" + rest) == "<" + UnescapeHtml(rest)
  {
    var t := "&lt;" + rest;
    assert t[1] == 'l';
    assert |t| >= 5 ==> t[..5] != "&amp;" by {
      if |t| >= 5 {
        assert t[..5][1] == 'l';
      }
    }
    assert t[..4] == "&lt;" && t[4..] == rest;
  }

  lemma UnescapeGt(rest: string)
    ensures UnescapeHtml("&gt;" + rest) == ">" + UnescapeHtml(rest)
  {
    var t := "&gt;" + rest;
    assert |t| >= 5 ==> t[..5] != "&amp;" by {
      if |t| >= 5 {
        assert t[..5][1] == 'g';
      }
    }
    assert t[..4][1] == 'g';
    assert t[..4] == "&gt;" && t[4..] == rest;
  }

  lemma UnescapeQuot(rest: string)
    ensures UnescapeHtml("&quot;" + rest) == "\"" + UnescapeHtml(rest)
  {
    var t := "&quot;" + rest;
    assert t[..5][1] == 'q';
    assert t[..4][1] == 'q';
    assert t[..6] == "&quot;" && t[6..] == rest;
  }

  lemma UnescapePlain(c: char, rest: string)
    requires c != '&'
    ensures UnescapeHtml([c] + rest) == [c] + UnescapeHtml(rest)
  {
    var t := [c] + rest;
    assert |t| >= 4 ==> t[..4][0] == c;
    assert |t| >= 5 ==> t[..5][0] == c;
    assert |t| >= 6 ==> t[..6][0] == c;
    assert t[0] == c && t[1..] == rest;
  }

  /** Escaped text holds no `<`, `>` or `"`, so it cannot open a tag or end an attribute. */
  lemma {:induction false} EscapeHtmlIsInert(s: string)
    ensures forall c :: c in EscapeHtml(s) ==> c != '<' && c != '>' && c != '"'
    decreases |s|
  {
    if s != [] {
      EscapeHtmlIsInert(s[1..]);
    }
  }

  /** The block the callback falls back to: the escaped code, uncoloured. */
  function PlainBlock(code: string): string {
    "<pre><code>" + EscapeHtml(code) + "</code></pre>"
  }

  /** The engine's `codeToHtml(code, {lang, theme})`; `None` stands for an exception. */
  type Engine = (string, string, string) -> Option<string>

  /** The `highlight` callback for fenced code: the plain block when the fence
      names no language or when the engine throws, otherwise the engine's HTML
      for the lower-cased language under the fixed theme. */
  function Highlight(code: string, lang: string, engine: Engine): (html: string)
    ensures html == PlainBlock(code)
         || (lang != "" && engine(code, JsText.Lower(lang), Theme) == Some(html))
    ensures lang == "" ==> html == PlainBlock(code)
    ensures lang != "" && engine(code, JsText.Lower(lang), Theme).None? ==> html == PlainBlock(code)
  {
    if lang == "" then PlainBlock(code)
    else
      match engine(code, JsText.Lower(lang), Theme)
      case None => PlainBlock(code)
      case Some(h) => h
  }

  /** Other names the highlighter resolves for the loaded grammars: their
      canonical names and main aliases. */
  const Aliases: set<string> := {"javascript", "typescript", "python", "shellscript", "shell", "zsh",
    "markdown", "rs", "c++"}

  /** The names every highlighter accepts without a grammar. */
  const PlainLanguages: set<string> := {"text", "txt", "plain", "plaintext", "ansi"}

  /** A language name the highlighter resolves: one of the loaded grammars,
      one of their aliases, a plain language, or one of `more` (aliases or
      embedded grammars of the bundle not listed here). */
  predicate Resolves(l: string, more: set<string>) {
    l in Languages || l in Aliases || l in PlainLanguages || l in more
  }

  /** An engine that throws for every name it does not resolve gives the
      plain block for a fence whose lower-cased language it does not
      resolve. */
  lemma UnknownLanguageIsPlain(code: string, lang: string, engine: Engine, more: set<string>)
    requires forall c, l, t :: !Resolves(l, more) ==> engine(c, l, t).None?
    requires !Resolves(JsText.Lower(lang), more)
    ensures Highlight(code, lang, engine) == PlainBlock(code)
  {
    var html := Highlight(code, lang, engine);
    assert engine(code, JsText.Lower(lang), Theme).None?;
  }

  /** The fence language is lower-cased before the lookup, so an upper-case
      alias of a loaded grammar resolves. */
  lemma UpperCaseAliasResolves(more: set<string>)
    ensures JsText.Lower("Python") == "python" && Resolves(JsText.Lower("Python"), more)
    ensures Resolves(JsText.Lower("TEXT"), more)
  {
    assert JsText.Lower("Python") == "python";
    assert JsText.Lower("TEXT") == "text";
  }

  // ----- the memoised renderer -----

  /** The configuration the renderer is built with. The anchor plugin receives
      `Slugify` as its slug function and `anchorLevels` as its levels. */
  datatype Renderer = Renderer(
    html: bool, linkify: bool, typographer: bool, katex: bool,
    theme: string, languages: seq<string>, anchorLevels: seq<int>, permalink: bool)

  const Configured := Renderer(true, true, true, true, Theme, Languages, [1, 2, 3], false)

  /** `markdown || ''`. */
  function OrEmpty(markdown: Option<string>): (s: string)
    ensures markdown.None? ==> s == ""
    ensures markdown.Some? ==> s == markdown.value
  {
    markdown.GetOr("")
  }

  /** The TOC `extractToc` returns when the renderer parses with `parse`. */
  function TocOfMarkdown(markdown: Option<string>, parse: (Renderer, string) -> seq<Token>): seq<TocEntry> {
    TocOf(parse(Configured, OrEmpty(markdown)))
  }

  /** Missing markdown is parsed as the empty string. */
  lemma MissingMarkdownIsEmpty(parse: (Renderer, string) -> seq<Token>)
    ensures TocOfMarkdown(None, parse) == TocOfMarkdown(Some(""), parse)
  {
  }

  /** What the promise built by `getRenderer` settles to: the configured
      renderer when `createHighlighter` resolves, or the error it rejects
      with (`failure`, an input: loading grammars happens outside the model). */
  function Built(failure: Option<string>): (r: Result<Renderer, string>)
    ensures r.Ok? <==> failure.None?
    ensures r.Ok? ==> r.value == Configured
    ensures r.Err? ==> r.error == failure.value
  {
    if failure.None? then Ok(Configured) else Err(failure.value)
  }

  /** The module-level `rendererPromise` and the sequential behaviour of
      `getRenderer`: the promise is built on the first call and handed back
      unchanged on every later one, whether it resolved or rejected. A
      rejected build therefore stays cached and fails every later call. */
  class RendererCache {
    var promise: Option<Result<Renderer, string>>
    /** How many times the renderer has been built. */
    ghost var builds: nat

    ghost predicate Valid()
      reads this
    {
      && (promise.None? ==> builds == 0)
      && (promise.Some? ==> builds == 1 && (promise.value.Ok? ==> promise.value.value == Configured))
    }

    constructor ()
      ensures Valid() && promise == None
    {
      promise := None;
      builds := 0;
    }

    /** `getRenderer()`; `failure` is what `createHighlighter` would reject
        with if it were called now. */
    method GetRenderer(failure: Option<string>) returns (md: Result<Renderer, string>)
      requires Valid()
      modifies this
      ensures Valid() && promise == Some(md) && builds == 1
      ensures old(promise).Some? ==> md == old(promise).value && builds == old(builds)
      ensures old(promise).None? ==> md == Built(failure)
      ensures md.Ok? ==> md.value == Configured
    {
      if promise.Some? {
        return promise.value;
      }
      md := Built(failure);
      promise := Some(md);
      builds := builds + 1;
    }

    /** `renderMarkdown`: render the markdown, or `''` when there is none;
        a rejected renderer promise rejects the call with its error. */
    method RenderMarkdown(markdown: Option<string>, render: (Renderer, string) -> string, failure: Option<string>)
      returns (html: Result<string, string>)
      requires Valid()
      modifies this
      ensures Valid() && promise.Some? && builds == 1
      ensures old(promise).Some? ==> promise == old(promise)
      ensures old(promise).None? ==> promise == Some(Built(failure))
      ensures promise.value.Ok? ==> html == Ok(render(Configured, OrEmpty(markdown)))
      ensures promise.value.Err? ==> html == Err(promise.value.error)
    {
      var md := GetRenderer(failure);
      if md.Err? {
        return Err(md.error);
      }
      html := Ok(render(md.value, OrEmpty(markdown)));
    }

    /** `extractToc`: parse the markdown with the cached renderer and walk
        the tokens; a rejected renderer promise rejects the call. */
    method ExtractToc(markdown: Option<string>, parse: (Renderer, string) -> seq<Token>, failure: Option<string>)
      returns (toc: Result<seq<TocEntry>, string>)
      requires Valid()
      modifies this
      ensures Valid() && promise.Some? && builds == 1
      ensures old(promise).Some? ==> promise == old(promise)
      ensures old(promise).None? ==> promise == Some(Built(failure))
      ensures promise.value.Ok? ==> toc == Ok(TocOfMarkdown(markdown, parse))
      ensures promise.value.Err? ==> toc == Err(promise.value.error)
    {
      var md := GetRenderer(failure);
      if md.Err? {
        return Err(md.error);
      }
      var tokens := parse(md.value, OrEmpty(markdown));
      var walked := TocWalk(tokens);
      toc := Ok(walked);
    }
  }
}
