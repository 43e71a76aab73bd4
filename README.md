# megumi-lite server core in Dafny

A model of the server side of megumi-lite, a Nuxt blog with a MongoDB
store. The model covers these parts:

- **Markdown** (`MarkdownParser`, `UseToc`). This is the heading-id slug
  (`encodeURIComponent` of the lower-cased, trimmed, dash-joined text). It
  also covers the table-of-contents walk over the token stream, the
  code-block fallback of the highlighter, and the memoised renderer, with
  its client twin in `useToc`.
- **Writes.** `POST /api/articles/save` (`SaveArticle`) has these parts:
  - tag parsing;
  - find-or-create of tags;
  - title and tag slugs;
  - the unique-slug loop;
  - the update and create branches with their errors.

  `POST /api/blog` (`BlogCreate`) is its older sibling. Both run against
  `Store.Db`, a small in-memory stand-in for the two MongoDB collections.
  It enforces the schema's required fields and unique slugs.
- **Reads.** These handlers are covered:
  - `GET /api/articles` (`ArticlesList`: archive mode, category and tag
    filters, paging);
  - `GET /api/metadata` (`Metadata`: per-category and per-tag counts, sorted
    by count);
  - `GET /api/gallery` (`Gallery`);
  - `GET /api/blog` (`BlogList`);
  - `GET /api/stats/articles` (`ArticleStats`);
  - the view-model conversions of `toVM` (`ToVM`).
- **Upload and guard.** `POST /api/upload` (`Upload`) covers the stored file
  name, the dated URL and the error answers. The API middleware (`Auth`)
  decides which requests need the `auth_token` cookie.

Shared modules hold JavaScript's own behaviour, which the handlers rely on:

- `JsText`:
  - `toLowerCase`, `trim` and regex run replacement;
  - `parseInt`;
  - `x || d`;
  - `Math.ceil` and `Math.round` of a quotient.
- `Uri`: `encodeURIComponent` and `decodeURIComponent` over UTF-8.
- `JsValue`: JSON values as `JSON.parse` returns them.
- `Lean`: the plain objects a `.lean()` query returns.
- `Wrappers`: `Option` and `Result`.

The database, the clock, `Math.random`, the multipart reader, the file
system, markdown-it's parser and Shiki are inputs. Either they are
functions passed in or they are the values they returned or threw.

## Model

| member | source | states |
|---|---|---|
| MarkdownParser.NormalizeNoSpace | server/utils/markdownParser.ts:8 | lower-case, trim and `\s+`→`-` leave no whitespace |
| MarkdownParser.SlugifyIsEncoded | server/utils/markdownParser.ts:7-9 | a heading id is well-formed `encodeURIComponent` output (unreserved characters and `%XX` triplets) with no whitespace |
| MarkdownParser.SlugifyEmpty | server/utils/markdownParser.ts:7-9 | the empty heading gets the empty id |
| MarkdownParser.SlugifyIdentity | server/utils/markdownParser.ts:7-9 | a text of lower-case ASCII letters, digits and `-` is its own id |
| MarkdownParser.SlugifyDecodes | server/utils/markdownParser.ts:7-9 | `decodeURIComponent` of an id gives back the normalised heading text (round trip) |
| MarkdownParser.SlugifyCollides | server/utils/markdownParser.ts:7-9 | two headings get the same id exactly when their normalised texts are equal |
| MarkdownParser.EntryAt | server/utils/markdownParser.ts:68-72 | a table-of-contents entry's id is the slug of its text |
| MarkdownParser.TocPrefix | server/utils/markdownParser.ts:63-76 | the walk only appends: the outline after m tokens is a prefix of the outline after n ≥ m tokens |
| MarkdownParser.QualifyingInToc | server/utils/markdownParser.ts:65-73 | every `heading_open` of level 1–3 followed by an `inline` token contributes its entry |
| MarkdownParser.TocStep | server/utils/markdownParser.ts:65-73 | one more token appends the entry of the heading it opens exactly when that heading qualifies, and nothing otherwise |
| MarkdownParser.EntryPosition | server/utils/markdownParser.ts:65-73 | a qualifying heading's entry sits right after the entries of the tokens before it, so the outline keeps document order |
| MarkdownParser.TocFromQualifying | server/utils/markdownParser.ts:65-73 | every entry comes from such a heading |
| MarkdownParser.TocMembership | server/utils/markdownParser.ts:58-79 | an entry is in the outline if and only if some qualifying heading produces it |
| MarkdownParser.TocEntriesWellFormed | server/utils/markdownParser.ts:66-72 | every entry has level 1 to 3 and id = slug(text) |
| MarkdownParser.TocNoLongerThanHeadings | server/utils/markdownParser.ts:63-76 | the outline has at most one entry per `heading_open` token |
| MarkdownParser.RepeatedHeadingsShareId | server/utils/markdownParser.ts:71-72 | two qualifying headings with the same text give two entries with the same id (ids are not made unique) |
| MarkdownParser.TocWalk | server/utils/markdownParser.ts:60-78 | the imperative loop with its `push` yields exactly the specified outline |
| MarkdownParser.UnescapeEscape | server/utils/markdownParser.ts:28 | `escapeHtml` loses nothing: unescaping gives the code back |
| MarkdownParser.UnescapeEscapeChar | server/utils/markdownParser.ts:28 | unescaping one escaped character gives that character, whatever follows |
| MarkdownParser.EscapeHtmlIsInert | server/utils/markdownParser.ts:28 | escaped code contains no `<`, `>` or `"` |
| MarkdownParser.Highlight | server/utils/markdownParser.ts:26-38 | no language, or a language Shiki rejects (lower-cased first), gives the escaped `<pre><code>` block; otherwise Shiki's HTML |
| MarkdownParser.UnknownLanguageIsPlain | server/utils/markdownParser.ts:17-37 | a fence whose lower-cased language the highlighter does not resolve (not a loaded grammar, not one of their aliases, not a plain language such as `text`) falls back to the plain block |
| MarkdownParser.UpperCaseAliasResolves | server/utils/markdownParser.ts:30-32 | the language is lower-cased before the lookup, so `Python` resolves as the alias `python` and `TEXT` as the plain language `text` |
| MarkdownParser.OrEmpty | server/utils/markdownParser.ts:55 | `markdown \|\| ''`: a missing document is the empty string |
| MarkdownParser.MissingMarkdownIsEmpty | server/utils/markdownParser.ts:61 | a missing document has the outline of the empty document |
| MarkdownParser.RendererCache.constructor | server/utils/markdownParser.ts:11 | the cache starts with no renderer |
| MarkdownParser.Built | server/utils/markdownParser.ts:16-50 | the built promise resolves to the configured renderer exactly when `createHighlighter` resolves, and otherwise rejects with its error |
| MarkdownParser.RendererCache.GetRenderer | server/utils/markdownParser.ts:13-51 | the first call builds the promise and caches it, resolved or rejected; later calls return the cached promise, so it is built once and a failed build fails every later call |
| MarkdownParser.RendererCache.RenderMarkdown | server/utils/markdownParser.ts:53-56 | renders `markdown \|\| ''` with the configured renderer, built at most once; when the cached build failed, rejects with its error on this and every later call |
| MarkdownParser.RendererCache.ExtractToc | server/utils/markdownParser.ts:58-79 | returns the specified outline of the parsed `markdown \|\| ''`; when the cached build failed, rejects with its error on this and every later call |
| UseToc.Slugify | app/composables/useToc.ts:4 | the client's slug is the server's slug |
| UseToc.Extract | app/composables/useToc.ts:17-35 | the client loop yields the specified outline of its own parse |
| UseToc.ClientMatchesServer | app/composables/useToc.ts:17-35 | for the same token stream the client's outline is the server's `extractToc` result; it joins `UseToc.Extract` and `RendererCache.ExtractToc`, which each prove their loop computes `TocOf` |
| Uri.Utf8Char | server/utils/markdownParser.ts:8 | a character encodes to 1–4 bytes and to one byte exactly when it is ASCII |
| Uri.DecodeUtf8Char | server/utils/markdownParser.ts:8 | UTF-8 decoding of a character's encoding gives the character back |
| Uri.HexChar | server/utils/markdownParser.ts:8 | the triplet digit is an upper-case hex digit that reads back as its value |
| Uri.Triplets | server/utils/markdownParser.ts:8 | each byte becomes three characters |
| Uri.EncodeIsEncoded | server/utils/markdownParser.ts:8 | `encodeURIComponent` output consists of unreserved characters and `%XX` triplets |
| Uri.EncodeIdentity | server/utils/markdownParser.ts:8 | a string of unreserved characters encodes to itself |
| Uri.DecodeEncode | server/utils/markdownParser.ts:8 | `decodeURIComponent(encodeURIComponent(s)) == s` |
| Uri.EncodeInjective | server/utils/markdownParser.ts:8 | different strings encode differently |
| JsText.Lower | server/api/articles/save.post.ts:24 | `toLowerCase` keeps the length and maps each character (ASCII upper to lower) |
| JsText.LowerIdempotent | server/api/articles/save.post.ts:24 | lower-casing twice is lower-casing once |
| JsText.TrimSpec | server/api/articles/save.post.ts:63 | `trim` removes exactly the leading and trailing whitespace |
| JsText.TrimIdempotent | server/api/articles/save.post.ts:63 | trimming a trimmed string changes nothing |
| JsText.ReplaceRunsCollapses | server/api/articles/save.post.ts:26-27 | replacing runs of a class by one class character leaves no two adjacent |
| JsText.ReplaceRunsLeavesNoClassChar | server/api/articles/save.post.ts:25 | `replace(/[^…]/g, r)` leaves no character of the replaced class |
| JsText.ParseIntOfDecimal | server/api/upload.post.ts:39 | `parseInt` of a decimal rendering gives the number back |
| JsText.DecimalInjective | server/api/upload.post.ts:39 | two numbers with the same decimal rendering are equal |
| JsText.OrDefault | server/api/articles.get.ts:21 | `parseInt(q) \|\| d` is the parsed value when it is a non-zero number, `d` otherwise |
| JsText.CeilDiv | server/api/articles.get.ts:86 | `Math.ceil(a / b)` for either sign of `b`: the least r with a ≤ r·b (b > 0) |
| JsText.RoundDiv | server/api/stats/articles.get.ts:35-36 | `Math.round(a / b)`: the integer within half of a/b, halves rounded up |
| SaveArticle.TitleDashesShape | server/api/articles/save.post.ts:22-29 | a title slug holds only lower-case word characters and `-`, with no two `-` in a row |
| SaveArticle.SlugifyTitleShape | server/api/articles/save.post.ts:22-29 | the final `trim` is a no-op: the slug has no whitespace |
| SaveArticle.SlugifyTitleKeepsLeadingDash | server/api/articles/save.post.ts:26-28 | a title starting with whitespace gives a slug starting with `-` (trim runs after the dash step) |
| SaveArticle.SlugifyTag | server/api/articles/save.post.ts:31-39 | the base when it is non-empty, otherwise `tag-<now>-<random>` |
| SaveArticle.LoweredHasNoUpper | server/api/articles/save.post.ts:32-33 | lower-casing then trimming a tag name leaves no ASCII upper-case letter |
| SaveArticle.TagBaseShape | server/api/articles/save.post.ts:32-37 | a tag base has only word, CJK and `-` characters, no `--`, and no `-` at either end |
| SaveArticle.StripDashesShape | server/api/articles/save.post.ts:37 | stripping one leading and one trailing `-` leaves no dash at the ends of a dash-collapsed string |
| SaveArticle.ParseRawTags | server/api/articles/save.post.ts:7-20 | arrays pass through; strings go through `JSON.parse`, then the single-quote retry, then `[]`; anything else gives `[]` |
| SaveArticle.SingleQuotedTags | server/api/articles/save.post.ts:12-13 | a string that parses only after quote swapping gives that array |
| SaveArticle.TagName | server/api/articles/save.post.ts:62-64 | an entry is used if and only if it is a string whose trim is non-empty; its name is the trim |
| SaveArticle.EntryNames | server/api/articles/save.post.ts:61-64 | one decision per array entry |
| SaveArticle.EntryNamesTrimmed | server/api/articles/save.post.ts:63 | every used name is already trimmed |
| SaveArticle.TagNamesSpec | server/api/articles/save.post.ts:61-64 | the used names are the trimmed non-empty string entries, in order: one per used entry (`UsedCount`), entry j's name at the position counting the used entries before j; each non-empty and trimmed |
| SaveArticle.StepFacts | server/api/articles/save.post.ts:66-75 | one loop step either skips, reuses the tag with that name, creates one with a fresh id, or records the create error |
| SaveArticle.StepAfterFailure | server/api/articles/save.post.ts:73 | after a throw nothing else happens |
| SaveArticle.NoFailureBefore | server/api/articles/save.post.ts:61-76 | no step before a successful run failed |
| SaveArticle.FailureStops | server/api/articles/save.post.ts:73 | once a create throws, the remaining entries change nothing |
| SaveArticle.StepKeepsAppends | server/api/articles/save.post.ts:73 | a step only appends tags |
| SaveArticle.ResolveOnlyAppends | server/api/articles/save.post.ts:57-79 | existing tags are kept and new tags are appended |
| SaveArticle.StepKeepsMatch | server/api/articles/save.post.ts:75 | each pushed id belongs to a tag with the entry's name |
| SaveArticle.ResolvedIdsMatchNames | server/api/articles/save.post.ts:57-79 | the k-th id names a tag whose name is the k-th used name |
| SaveArticle.ReusesExistingTag | server/api/articles/save.post.ts:66 | a name that already has a tag gets that tag's id, not a new tag |
| SaveArticle.StepSkips | server/api/articles/save.post.ts:62-64 | a skipped entry changes nothing |
| SaveArticle.StepFinds | server/api/articles/save.post.ts:66 | a found tag contributes its id |
| SaveArticle.StepCreates | server/api/articles/save.post.ts:67-74 | a created tag is stored and contributes its id |
| SaveArticle.StepRefused | server/api/articles/save.post.ts:73 | a refused create stops the loop with that error |
| SaveArticle.ResolveEntry | server/api/articles/save.post.ts:62-75 | one iteration against the store performs the specified step |
| SaveArticle.ResolveNext | server/api/articles/save.post.ts:62-75 | the iteration for entry `i` takes the walk over the first `i` entries to the walk over the first `i + 1` |
| SaveArticle.FindOrCreateTags | server/api/articles/save.post.ts:57-79 | the loop over the store performs the specified resolution of every entry |
| SaveArticle.CandidateInjective | server/api/articles/save.post.ts:51 | the candidates `slug`, `slug-1`, `slug-2`, … are all different |
| SaveArticle.FirstFreeUnique | server/api/articles/save.post.ts:44-53 | there is one first free candidate |
| SaveArticle.ProbeOfCounter | server/api/articles/save.post.ts:45-51 | the trimmed `slug-<n>` that `findOne` looks up is the slug without its leading white space, then `-<n>` |
| SaveArticle.ProbeInjective | server/api/articles/save.post.ts:45-51 | different counters are looked up under different trimmed values |
| SaveArticle.ProbeOfInjective | server/api/articles/save.post.ts:45-51 | the lookup value as a function of the counter never repeats |
| SaveArticle.ImageSize | server/api/articles/save.post.ts:44-53 | the first n lookups are n distinct values, each among them |
| SaveArticle.ImageIn | server/api/articles/save.post.ts:45-51 | the k-th lookup value is among the first n only if k < n |
| SaveArticle.ImageWithin | server/api/articles/save.post.ts:44-53 | when the first n lookups all found an article, the set of their values lies within the stored slugs |
| SaveArticle.SearchStep | server/api/articles/save.post.ts:50-52 | the loop only moves on to the next counter while the counter is below the number of stored slugs, so it stops |
| SaveArticle.SearchStop | server/api/articles/save.post.ts:49 | the loop leaving at the first counter whose lookup finds nothing has the first free candidate |
| SaveArticle.FirstFreeFromSpec | server/api/articles/save.post.ts:44-53 | searching on from k finds the first free candidate |
| SaveArticle.UniqueSlugIsFirstFree | server/api/articles/save.post.ts:41-55 | the result is the first candidate whose trimmed form no other article stores; the slug itself when its trimmed form is free |
| SaveArticle.PaddedSlugMovesOn | server/api/articles/save.post.ts:41-55 | with `foo` stored, the padded slug ` foo ` is found taken and ` foo -1` is chosen, which the setter stores as `foo -1` |
| SaveArticle.SlugLookup | server/api/articles/save.post.ts:45-49 | the lookup finds an article other than the excluded one exactly when one stores the trimmed candidate |
| SaveArticle.TryCandidate | server/api/articles/save.post.ts:45-51 | one round builds the k-th candidate and reports whether its trimmed form is stored by another article |
| SaveArticle.EnsureUniqueSlug | server/api/articles/save.post.ts:41-55 | the loop of trim-cast `findOne` lookups over the store (the article being edited excluded) returns the first free candidate |
| SaveArticle.OrElse | server/api/articles/save.post.ts:87-88 | `x \|\| d`: the value when it is a non-empty string, `d` otherwise |
| SaveArticle.Nullish | server/api/articles/save.post.ts:113-114 | `x ?? d`: the value when present, even when it is empty |
| SaveArticle.Updated | server/api/articles/save.post.ts:109-117 | the update sets the trimmed title, the tags, the trimmed cover (`cover`, else `coverImage`, else `''`) and the published flag; it moves the slug to the trimmed unique slug only when one is requested; content and summary take the body's value when present and are kept when absent (the summary trimmed); id, views, pin and category are kept |
| SaveArticle.NewDraft | server/api/articles/save.post.ts:125-133 | the created article's fields and `\|\|` defaults |
| SaveArticle.Respond | server/api/articles/save.post.ts:136-145 | a status error is passed on; any other error becomes 500 with its message |
| SaveArticle.UpdateBranch | server/api/articles/save.post.ts:103-121 | 404 when the id is unknown; otherwise the updated article is saved in place (or the save error is returned) |
| SaveArticle.CreateBranch | server/api/articles/save.post.ts:124-135 | a new article under the first free slug (a padded slug whose trimmed form is taken moves on to `slug-1`), or the store's error |
| SaveArticle.Handle | server/api/articles/save.post.ts:81-135 | tags are resolved first; then 400 for a missing title, otherwise the update or create branch; the saved article is in the store |
| SaveArticle.Save | server/api/articles/save.post.ts:81-146 | the answer is the saved article or 400, 404 or 500 |
| SaveArticle.RequestedSlugChoice | server/api/articles/save.post.ts:97-100 | the body's slug when non-empty, otherwise the slug of the title |
| SaveArticle.UpdateWritesBack | server/api/articles/save.post.ts:109-118 | a successful update keeps the id, views, pin and category of the stored article, writes the body's title, tags, flag, cover, content and summary (keeping content and summary when absent), and moves the slug to the first free candidate when one is requested |
| SaveArticle.UpdateOfMissingArticle | server/api/articles/save.post.ts:105-107 | an unknown id is a 404 and the store is unchanged |
| SaveArticle.CreateNeverClashes | server/api/articles/save.post.ts:124-133 | the create branch is never refused by the unique slug index; only validation can refuse it |
| SaveArticle.UpdateNeverClashes | server/api/articles/save.post.ts:109-118 | an update that asks for a slug is never refused by the unique slug index |
| SaveArticle.CreateDefaults | server/api/articles/save.post.ts:125-133 | a created article has the next id and the first free slug, views 0, no pin, no category, the resolved tags, the trimmed cover, and is published unless the body says `false` |
| SaveArticle.RespondKeepsStatus | server/api/articles/save.post.ts:138-144 | the status of a thrown status error survives; other errors are 500 with a non-empty message |
| Store.Code | server/models/article.schema.ts:34 | error code 11000 is exactly a duplicate-key error |
| Store.Message | server/api/articles/save.post.ts:143 | every store error has a non-empty message |
| Store.TagNamed | server/api/articles/save.post.ts:66 | `Tag.findOne({ name })`: a stored tag with that name, `None` exactly when there is none |
| Store.TagNamedIsFirst | server/api/articles/save.post.ts:66 | the tag found is the first with that name |
| Store.TagNamedAppend | server/api/articles/save.post.ts:73 | appending tags does not change which existing tag a name finds |
| Store.CreateTag | server/models/tag.schema.ts:11-35 | a tag is stored with its trimmed name and trimmed, lower-cased slug; it is refused with a duplicate key exactly when that slug is taken, and fails validation when name or slug is empty |
| Store.TakenSlugs | server/api/articles/save.post.ts:45-49 | the slugs stored by every article except the excluded one; `findOne({ slug })`, whose value the `trim` setter casts, finds one exactly when the trimmed value is among them |
| Store.ArticleWithId | server/api/articles/save.post.ts:104 | `findById`: the position of the first article in natural order with that id, `None` exactly when there is none |
| Store.CreateArticle | server/models/article.schema.ts:30-59 | an article is stored with its defaults; validation fails exactly when a required field is missing or empty, and a duplicate key is returned exactly when the slug is taken |
| Store.SaveArticle | server/models/article.schema.ts:33-34 | `save()` of an existing article is refused exactly when it is incomplete or its slug is another article's |
| Store.Db.constructor | server/models/article.schema.ts:30-59 | an empty store |
| Store.Db.InsertTag | server/api/articles/save.post.ts:73 | stores the tag `CreateTag` accepts and nothing else |
| Store.Db.InsertArticle | server/api/articles/save.post.ts:125-133 | stores the article `CreateArticle` accepts and nothing else |
| Store.Db.Replace | server/api/articles/save.post.ts:118 | replaces the article in place when `SaveArticle` accepts it, otherwise leaves the store unchanged; slugs stay unique |
| BlogCreate.DerivedSlug | server/api/blog/index.post.ts:65-72 | the derived slug is the one `save` computes from the title |
| BlogCreate.SlugifyTag | server/api/blog/index.post.ts:22-30 | the tag slug is the one `save` computes |
| BlogCreate.Handle | server/api/blog/index.post.ts:56-99 | unique slug first, then the tags, then one new article with 0 views, or the store's error |
| BlogCreate.Respond | server/api/blog/index.post.ts:100-115 | error code 11000 is a 400 "slug already exists", anything else is a 500 with its message |
| BlogCreate.Create | server/api/blog/index.post.ts:56-116 | the answer is the created article (in the store, 0 views) or 400 or 500 |
| BlogCreate.StartSlugChoice | server/api/blog/index.post.ts:64-72 | the body's slug when non-empty, else the title's slug, which holds only slug characters |
| BlogCreate.CreatedDefaults | server/api/blog/index.post.ts:84-92 | the created article has the next id, the first free slug, views 0, no pin, no category, no cover image (the body's `cover` is not a schema field), is published and holds the resolved tags |
| BlogCreate.CreatedNeverClashes | server/api/blog/index.post.ts:75-94 | the article write is never refused by the unique slug index, so a 400 slug clash can only come from a tag insert |
| BlogCreate.MissingTitleOrContentFails | server/api/blog/index.post.ts:84-94 | a missing title or content is a validation failure; nothing is stored and the answer is 500 |
| BlogCreate.TagClashReportedAsSlugClash | server/api/blog/index.post.ts:104-109 | any duplicate key, including one from a tag insert, is reported as a slug clash |
| Lean.OrEmpty | server/utils/toVM.ts:50 | `x \|\| ''` for a string field |
| Lean.OrZero | server/utils/toVM.ts:58 | `x \|\| 0` for a number field |
| Lean.OrNow | server/utils/toVM.ts:61 | a missing date is the current instant |
| Lean.PublishedOnly | server/api/metadata.get.ts:13 | exactly the documents whose `isPublished` is `true`, nothing else |
| Lean.PublishedOnlyOne | server/api/metadata.get.ts:13 | a single document is kept exactly when it is published |
| Lean.PublishedOnlyAppend | server/api/metadata.get.ts:13 | the filter of a concatenation is the concatenation of the filters, so collection order is kept |
| Lean.PublishedOnlyCounts | server/api/metadata.get.ts:13 | a published document occurs as often in the result as in the collection, any other not at all |
| Lean.PublishedOnlyKeepsPublished | server/api/metadata.get.ts:13 | a collection of published documents passes unchanged |
| ToVM.ToRefVM | server/utils/toVM.ts:11-42 | `null`, and an object without `_id`, give `null`; otherwise the id, and the name and slug as stored or `''` when missing |
| ToVM.ConvertAll | server/utils/toVM.ts:55-56 | `map(toTagVM).filter(non-null)` is no longer than its input |
| ToVM.ConvertAllAppend | server/utils/toVM.ts:55-56 | the map and filter distribute over concatenation |
| ToVM.ConvertAllFrom | server/utils/toVM.ts:55-56 | every kept view model is the conversion of some input entry |
| ToVM.ConvertAllKeepsAll | server/utils/toVM.ts:55-56 | nothing is dropped exactly when every entry converts |
| ToVM.TagsVM | server/utils/toVM.ts:55-57 | a non-array gives `[]` |
| ToVM.ToListItemVM | server/utils/toVM.ts:47-65 | every stored field passes through and every missing one takes its default (`''`, 0, now); the category is `toCategoryVM` of the stored one (present only with an `_id`) and the tags are the converted array; `isTop` only for `true`; `isPublished` unless `false` |
| ToVM.ToDetailVM | server/utils/toVM.ts:70-76 | the list item plus `content \|\| ''` |
| Metadata.Find | server/api/metadata.get.ts:27 | `Map.has`/`get` over the insertion-ordered table |
| Metadata.TallyAppend | server/api/metadata.get.ts:21-38 | counting one more document is one more `forEach` step |
| Metadata.FirstIndexSpec | server/api/metadata.get.ts:31 | the first position where a key occurs |
| Metadata.SumCountsBump | server/api/metadata.get.ts:29 | `existing.count++` adds one to the total |
| Metadata.SumCountsAppend | server/api/metadata.get.ts:31-35 | `set` of a new key adds its count |
| Metadata.ExtendFacts | server/api/metadata.get.ts:21-38 | how occurrences, first positions and the number of present refs change with one more ref |
| Metadata.AddSkips | server/api/metadata.get.ts:22 | a missing category changes no count |
| Metadata.AddBumps | server/api/metadata.get.ts:27-29 | a known id increments its count |
| Metadata.AddCounts | server/api/metadata.get.ts:27-29 | after the increment the table still describes the refs seen |
| Metadata.AddAppends | server/api/metadata.get.ts:30-35 | a new id is appended with `name \|\| ''`, `slug \|\| ''` and count 1 |
| Metadata.NewKeyUnseen | server/api/metadata.get.ts:30 | an id absent from the table has not occurred |
| Metadata.AddCreates | server/api/metadata.get.ts:30-35 | after the insertion the table still describes the refs seen |
| Metadata.TallyDescribes | server/api/metadata.get.ts:20-38 | the table has one entry per distinct id, in first-occurrence order, with the name and slug of the first occurrence and the number of occurrences as count |
| Metadata.TallySum | server/api/metadata.get.ts:20-38 | the counts add up to the number of non-null refs |
| Metadata.TallyKeys | server/api/metadata.get.ts:20-38 | an id has an entry exactly when it occurs, and every count is at least 1 |
| Metadata.CategoryRefs | server/api/metadata.get.ts:21-22 | one category ref per document |
| Metadata.Count | server/api/metadata.get.ts:22-37 | one counting step on the table |
| Metadata.CountCategories | server/api/metadata.get.ts:20-38 | the category loop computes the specified tally |
| Metadata.CountItems | server/api/metadata.get.ts:44-61 | the inner tag loop extends the tally by its entries |
| Metadata.CountTags | server/api/metadata.get.ts:41-63 | the nested tag loops compute the specified tally |
| Metadata.Values | server/api/metadata.get.ts:66 | `Array.from(map.values())` in insertion order |
| Metadata.InsertMultiset | server/api/metadata.get.ts:67 | inserting keeps every entry |
| Metadata.InsertDescending | server/api/metadata.get.ts:67 | inserting into a descending list keeps it descending |
| Metadata.InsertWithCount | server/api/metadata.get.ts:67 | inserting keeps the order among entries with equal count |
| Metadata.SortByCountSpec | server/api/metadata.get.ts:66-70 | the sort is by count, highest first, and a permutation |
| Metadata.SortByCountPermutes | server/api/metadata.get.ts:66-70 | the sorted list holds the same entries as its input, as a multiset |
| Metadata.SortByCountSorted | server/api/metadata.get.ts:66-70 | the sorted list is descending by count |
| Metadata.SortByCountStable | server/api/metadata.get.ts:66-70 | entries with equal counts keep their insertion order (`Array.prototype.sort` is stable) |
| Metadata.Handle | server/api/metadata.get.ts:10-76 | categories and tags of published articles, each tallied and sorted by count |
| Auth.Decide | server/middleware/auth.ts:1-42 | 401 exactly for an API path that is neither public nor a public GET, and that is protected or a blog write, without the `authenticated` cookie |
| Auth.PagesPass | server/middleware/auth.ts:5-7 | non-API paths always pass |
| Auth.PublicPrefixPasses | server/middleware/auth.ts:9-18 | paths under a public prefix pass with any method and cookie |
| Auth.StatsArticlesPublic | server/middleware/auth.ts:12 | `/api/stats/articles` is public through the `/api/stats` prefix |
| Auth.ReadsPass | server/middleware/auth.ts:19-22 | GETs under blog, articles, categories and tags pass |
| Auth.GuardedNeedCookie | server/middleware/auth.ts:28-40 | upload and admin paths (login excepted) pass exactly with the cookie, unless the request is a public GET |
| Auth.SaveArticleUnguarded | server/middleware/auth.ts:28-31 | `POST /api/articles/save` is not guarded |
| Upload.Sanitize | server/api/upload.post.ts:42 | the stored name holds only `[a-zA-Z0-9.-]` and `_` |
| Upload.SanitizeLength | server/api/upload.post.ts:42 | one output character per UTF-16 code unit, and an allowed name is unchanged |
| Upload.SanitizeAt | server/api/upload.post.ts:42 | each character stays in place or becomes `_` |
| Upload.FileNameReadsBack | server/api/upload.post.ts:39-42 | `parseInt` of the stored name is the timestamp |
| Upload.FileNameDistinct | server/api/upload.post.ts:39-42 | equal stored names mean equal timestamps and equal sanitised names |
| Upload.MonthTextSpec | server/api/upload.post.ts:27 | the month directory is two digits reading 1 to 12 |
| Upload.UrlShape | server/api/upload.post.ts:49 | the URL is the dated upload directory followed by the stored name |
| Upload.Attempt | server/api/upload.post.ts:9-59 | 400 with no form or no parts, 400 for a first part without data or file name, the write error, or the URL, name, original name and size |
| Upload.Catch | server/api/upload.post.ts:60-71 | errors with a status are rethrown; others become 500 with their message or the fallback |
| Upload.Handle | server/api/upload.post.ts:8-73 | every error is a status error; success exactly when the `try` block succeeds |
| Upload.NoFileUploaded | server/api/upload.post.ts:10-15 | no form data is a 400 "No file uploaded" |
| Upload.InvalidFileData | server/api/upload.post.ts:17-23 | a first part without data or file name is a 400 "Invalid file data" |
| Upload.WriteFailure | server/api/upload.post.ts:60-71 | a write failure is a 500 with its message or "Failed to upload file" |
| ArticlesList.Page | server/api/articles.get.ts:21 | `parseInt(page) \|\| 1` |
| ArticlesList.Limit | server/api/articles.get.ts:22 | no paging when the limit is absent, empty, not a number or 0; otherwise the parsed limit |
| ArticlesList.FindBySlug | server/api/articles.get.ts:47 | `findOne({ slug })`: `None` exactly when no term has the slug |
| ArticlesList.SlugFilterCanonical | server/api/articles.get.ts:47-58 | the lookup value (the query slug through the `trim` and `lowercase` setters) is its own cast, and a slug without white space or capitals is looked up unchanged |
| ArticlesList.FindBySlugFirst | server/api/articles.get.ts:47 | the id found belongs to a term with that slug |
| ArticlesList.Resolve | server/api/articles.get.ts:43-65 | a category or tag slug whose cast value matches no document stops the query; otherwise the filter carries the ids found for the cast slugs |
| ArticlesList.Empty | server/api/articles.get.ts:48-53 | the empty page: no items, total 0, page 1, totalPages 0 |
| ArticlesList.ArchiveEntries | server/api/articles.get.ts:25-40 | one archive entry per published article, with its title, slug and date |
| ArticlesList.CategoryOf | server/api/articles.get.ts:99-103 | a populated category is kept, even without an id; name and slug as stored, `''` when missing |
| ArticlesList.TagsOf | server/api/articles.get.ts:104-110 | a `null` tag entry throws; otherwise one entry per tag, in order, with its id, and its name and slug as stored or `''` |
| ArticlesList.MapItem | server/api/articles.get.ts:89-113 | a document maps to an item, or fails exactly when a tag entry is `null` |
| ArticlesList.MapItems | server/api/articles.get.ts:89-113 | every document maps, or the whole list fails |
| ArticlesList.Fail | server/api/articles.get.ts:128-134 | 500 with the error's message or "Failed to fetch articles" |
| ArticlesList.BuildFilter | server/api/articles.get.ts:43-65 | the filter the handler builds step by step is the one `Resolve` specifies, `None` when a slug matches nothing |
| ArticlesList.Handle | server/api/articles.get.ts:15-135 | the archive, the empty page for an unknown slug, the paged or plain list with `Math.ceil` page count, or 500 |
| ArticlesList.PageNeverZero | server/api/articles.get.ts:21 | the page is never 0 and defaults to 1 |
| ArticlesList.PagingArithmetic | server/api/articles.get.ts:78-86 | with a positive limit the pages cover the total and no page is empty |
| ArticlesList.MapItemAgreesWithVM | server/api/articles.get.ts:89-113 | on documents without `null` tags or id-less categories, the handler's mapping is `toArticleListItemVM` |
| ArticlesList.ConvertAllOfIds | server/utils/toVM.ts:55-56 | when every tag has an id, `toTagVM` keeps them all |
| ArticlesList.NullTagFails | server/api/articles.get.ts:104-110 | a `null` tag is a 500 here, while `toVM` drops it |
| ArticlesList.CategoryWithoutId | server/api/articles.get.ts:99-103 | a category without an id is kept here, while `toVM` gives `null` |
| Gallery.Page | server/api/gallery/index.get.ts:9 | `Math.max(parseInt(page) \|\| 1, 1)`: at least 1 |
| Gallery.Limit | server/api/gallery/index.get.ts:10 | `Math.max(parseInt(limit) \|\| 20, 1)`: at least 1 |
| Gallery.MapItem | server/api/gallery/index.get.ts:23-30 | each field or its default |
| Gallery.Handle | server/api/gallery/index.get.ts:8-49 | the mapped page, total, page, limit and `Math.ceil` page count, or 500 |
| Gallery.SkipNonNegative | server/api/gallery/index.get.ts:11 | the skip is never negative and is 0 exactly on page 1 |
| Gallery.PagesCoverTotal | server/api/gallery/index.get.ts:39 | the pages cover the total and no page is empty |
| BlogList.Page | server/api/blog/index.get.ts:9 | `parseInt(page) \|\| 1`, not clamped |
| BlogList.Limit | server/api/blog/index.get.ts:10 | `parseInt(limit) \|\| 10`, not clamped |
| BlogList.TagFilter | server/api/blog/index.get.ts:11-17 | a tag filter exactly for a non-empty tag |
| BlogList.Handle | server/api/blog/index.get.ts:8-50 | the documents as found, total, page, limit and `Math.ceil` page count, or 500 |
| BlogList.NoClamping | server/api/blog/index.get.ts:9-20 | a page below 1 gives a negative skip, and a negative limit a page count of at most 0 |
| BlogList.PageMinusOne | server/api/blog/index.get.ts:9-20 | `?page=-1` gives page -1 and skip -20 |
| BlogList.PagesCoverTotal | server/api/blog/index.get.ts:40 | with a positive limit the pages cover the total and no page is empty |
| ArticleStats.Group | server/api/stats/articles.get.ts:5-15 | the `$group` has a row exactly when some document matches, and counts them |
| ArticleStats.Average | server/api/stats/articles.get.ts:35-36 | 0 for no articles, otherwise the rounded mean |
| ArticleStats.Hot | server/api/stats/articles.get.ts:17-28 | the most viewed document with `''` and 0 defaults, `null` when none |
| ArticleStats.Chart | server/api/stats/articles.get.ts:39-50 | the first ten documents (or all, if fewer) as chart items |
| ArticleStats.Handle | server/api/stats/articles.get.ts:4-68 | totals (zeros when nothing matches), averages, hottest article and chart, or 500 |
| ArticleStats.NoArticles | server/api/stats/articles.get.ts:30-33 | when neither the aggregate nor the `find` queries select a document, every number is 0, there is no hottest article and the chart is empty |
| ArticleStats.HottestHeadsChart | server/api/stats/articles.get.ts:17-50 | a hottest article exists exactly when the `find` queries select a document, and it heads the chart |
| ArticleStats.HottestIffArticles | server/api/stats/articles.get.ts:5-33 | when the aggregate and the `find` queries select the same documents, a hottest article exists exactly when the article count is positive |
| ArticleStats.NoArticlesButHottest | server/api/stats/articles.get.ts:5-50 | when only the `find` queries select documents, the answer has 0 articles next to a hottest article and a non-empty chart |
| ArticleStats.ViewsAtMost | server/api/stats/articles.get.ts:12 | the view total is at most the count times the top views |
| ArticleStats.AverageAtMost | server/api/stats/articles.get.ts:36 | a rounded mean does not exceed an upper bound of its terms |
| ArticleStats.AverageViewsAtMostHottest | server/api/stats/articles.get.ts:17-36 | when no aggregated document has more views than the hottest article, the average views do not exceed its views |

## Left out

- Unicode case mapping: `toLowerCase` is modelled on ASCII letters only. Other characters are kept as they are.
- The markdown-it parser, the anchor plugin's rendering, KaTeX and Shiki are inputs (a token stream, a render function and a highlighter). The model covers what the code does with them.
- `getRenderer` is async and single-flight. The model is a sequential cache with a build counter, so concurrent first calls are not modelled. Whether `createHighlighter` rejects is an input (`failure`) of the call that builds the promise; the rejected promise stays cached, as in the code.
- MongoDB is a function input or the in-memory `Store.Db`. Sorting, `populate`, indexes and connection failures live inside those inputs. Error messages of the store are fixed strings.
- Malformed ObjectIds (`findById` casting errors) are not modelled: ids are numbers, and `String(_id)` is that number.
- Query strings are single optional strings. Repeated parameters (arrays) are not modelled. Of Mongoose's query casting, the model has the string setters on `slug` filters: `trim` for articles (`Store.SlugTaken`), `trim` and `lowercase` for categories and tags (`ArticlesList.SlugFilter`). `Tag.findOne` in the tag loops is given values these setters leave unchanged.
- Dates are instants in milliseconds. `toISOString` is not modelled. One `now` stands for every `new Date()` of a request.
- Floating point: views and counts are integers, and `Math.round` is integer rounding with halves up. A `NaN` view count is not modelled.
- The file system: `mkdir` and `writeFile` are a single write outcome. The unused `ext` variable of the upload handler is left out.
- Promise.all in the gallery and blog lists: when both queries fail, the model reports the `find` error.
- The category and tag lookups of `GET /api/articles` cannot throw in the model. They are lists of terms.
- `GET /api/stats/articles` filters on `status: 'published'`, a field the article schema does not declare. Mongoose does not cast aggregation pipelines, so the `$match` of the `$group` sees the field as stored. The `findOne` and `find` are cast, and with `strictQuery` on they drop the undeclared path and select every article. The documents each side selects are therefore two separate inputs (`grouped` and `found`, the latter in views order).
- ArticleStats.Handle: the `$group` totals are computed from the `grouped` documents rather than taken from the database, and each query reads one consistent snapshot.
- Metadata.Handle: a failing `Article.find` (the 500 of the `catch`) is not modelled, because the documents are an input.
- BlogCreate.NewDraft: a JSON `"summary": null` is read as an absent summary, so the model stores `''`. The code passes `null` to `new Article`, and Mongoose applies the `''` default only to `undefined` (and `trim` leaves non-strings alone), so the article is stored, and answered, with a `null` summary. The list and detail views read it back as `''` through `summary || ''`. Storing `null` would need a nullable summary in every stored article.
- BlogCreate.Handle: an undefined slug (no slug and no title) is modelled as the empty string, which the schema's `required` rejects.
- BlogCreate.TagClashReportedAsSlugClash: a duplicate key raised by `Tag.create` reaches the same `catch` and is answered as a slug clash. This follows the code.
- The login handlers (`admin/login.post.ts`, `auth/login.post.ts`) are not part of this model. Only the cookie value they set, `authenticated`, is used by `Auth`.
- MarkdownParser.UnknownLanguageIsPlain: the names the highlighter resolves are the loaded grammars, their main aliases and the plain languages; further aliases of a particular Shiki release and the grammars the loaded ones embed are a parameter (`more`), not listed.
- MarkdownParser.SlugifyIsEncoded: strings are sequences of Unicode scalar values, so a heading holding a lone surrogate (possible in a JSON body through `\ud800`) cannot be written down. For such text `encodeURIComponent` throws a `URIError` and rendering fails; that error path is not modelled.
- UseToc.Slugify: the same holds on the client; the `URIError` of a lone surrogate is not modelled.
- The `Math.random` suffixes of tag slugs are inputs (`draws`), not random values.

## Notes on the code

The code's behaviour is modelled as written, including these two
differences between `GET /api/articles` and `toVM`.

- A `null` tag in a populated list makes `GET /api/articles` answer 500
  (`tag._id` of `null`), while `toArticleListItemVM` filters such entries
  out (`ArticlesList.NullTagFails`).
- A populated category without an `_id` is kept by `GET /api/articles` with
  an undefined id, while `toCategoryVM` returns `null`
  (`ArticlesList.CategoryWithoutId`).

One more concerns `GET /api/stats/articles`: all three queries filter on
`status`, a field the article schema never writes. With `strictQuery` off,
none of them selects an article and the endpoint always answers zeros. With
it on, the two `find` queries ignore the filter while the aggregate does
not, so the answer reports 0 articles next to a hottest article and a full
chart (`ArticleStats.NoArticlesButHottest`).
