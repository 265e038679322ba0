# Serpmax content pipeline, modelled in Dafny

Serpmax is a marketing and blog site for SERP APIs. Most of it is
presentation. Its logic is a small content-publishing pipeline, which this
project models:

- An authenticated `POST /api/articles` endpoint takes a JSON article. It
  checks the bearer key, then a per-client fixed-window rate limit, then the
  required fields. It sanitises and validates the slug, renders a markdown
  document with a YAML front matter header, and writes the document to
  `content/articles/<slug>.md` in a remote repository. The write is a
  read-then-conditional-write keyed on the file's sha.
- `GET /api/articles` lists the stored slugs.
- The content layer turns each stored document into an `Article` with
  defaults and two computed fields, the page url `/<slug>` and the reading
  time.
- The blog index lists published articles newest first. The sitemap lists
  the site root and then every published article.
- The comparison table component (`components/ComparisonTable.tsx`) has a
  click-to-sort state machine and a stable sort of its five provider rows.

Everything is modelled as pure functions over immutable values:

- The rate limiter's windows and the remote store are maps threaded through
  the endpoint.
- The clock is passed in, both in milliseconds and as an ISO-8601 string.
- The remote's failures and the sha it assigns to a new write are passed in
  as a `Remote` value.
- `localeCompare` and date order are passed in as integer sort keys.

Files and modules:

| file | module | models |
|---|---|---|
| options.dfy | Options | `undefined` as `None` |
| strings.dfy | Strings | the JavaScript string built-ins the code uses: ASCII `toLowerCase`, `\s`, `startsWith`/`endsWith`, `indexOf`, `replace` with a string pattern (first occurrence only), `split`/`join` on one character |
| slugs.dfy | Slugs, SlugExamples | `lib/validators.ts` |
| rate_limit.dfy | RateLimit | `checkRateLimit` in `app/api/articles/route.ts` |
| frontmatter.dfy | Frontmatter | the document `POST` writes: quote escaping, `JSON.stringify` of the keywords, the header layout, and a reader that recovers the fields |
| article_store.dfy | ArticleStore | `lib/github.ts` over an abstract store |
| publish_api.dfy | PublishApi | `POST` and `GET` in `app/api/articles/route.ts` |
| articles.dfy | Articles | the `Article` document type of `contentlayer.config.ts` |
| sorting.dfy | Sorting | `Array.prototype.sort` as a stable sort by an integer key |
| comparison_table.dfy | ComparisonTable | `components/ComparisonTable.tsx` |
| listings.dfy | Listings | `app/blog/page.tsx` and `app/sitemap.ts` |

Three behaviours of the code are easy to misread:

- The 201 response reports `url: /blog/<slug>`, but the content layer puts
  the article's page at `/<slug>`, and the blog index links there.
  `PublishApi.ReportedUrlIsNotPageUrl` states the difference.
- A write whose sha token no longer matches the stored file fails like any
  other write: `success: false` with the remote's message, then a 500.
  There is no separate conflict response (`ArticleStore.StaleTokenIsRefused`).
- The validator's message says "less than 100 characters", but a slug of
  exactly 100 characters is accepted (`SlugExamples.LengthBoundary`).

## Model

| member | source | states |
|---|---|---|
| Strings.ToLower | lib/validators.ts:27 | lowercasing keeps the length and maps each ASCII capital to its small letter, leaving every other character as it is |
| Strings.IndexOf | lib/github.ts:74 | the result is the first index at which the pattern occurs, and it is absent exactly when the pattern occurs nowhere |
| Strings.ReplaceFirst | app/api/articles/route.ts:34 | a string-pattern `replace` changes only the first occurrence and returns the input unchanged when there is none |
| Strings.Split | app/api/articles/route.ts:92 | `split` on a character always yields one more piece than there are separators, and no piece contains the separator |
| Strings.SplitJoin | app/api/articles/route.ts:89-100 | splitting separator-free pieces joined by the separator gives back the pieces |
| Strings.JoinSplit | app/api/articles/route.ts:89-100 | joining the pieces of a split gives back the string |
| Strings.SplitFirst | app/api/articles/route.ts:92 | the first piece of a split is the prefix before the first separator, or the whole string when there is none |
| Slugs.MatchesSlugPattern | lib/validators.ts:15 | the executable pattern test accepts exactly the strings of one or more `[a-z0-9]+` groups joined by single hyphens |
| Slugs.PatternIsLanguage | lib/validators.ts:15 | the grammar is the same as "non-empty, only `a-z0-9-`, no `--`, no hyphen at either end" |
| Slugs.JoinedGroupsCanonical | lib/validators.ts:15 | groups joined by hyphens are non-empty, use only slug characters, and have no doubled or edge hyphen |
| Slugs.CanonicalPiecesNonEmpty | lib/validators.ts:15 | a canonical slug split at its hyphens has no empty group |
| Slugs.ValidateSlug | lib/validators.ts:1-23 | each error is reported exactly when its check is the first to fail: empty, shorter than 3, longer than 100, off the grammar; valid iff 3 ≤ length ≤ 100 and on the grammar |
| Slugs.TrimStartSuffix | lib/validators.ts:28 | trimming the start keeps a suffix of the input and drops only whitespace |
| Slugs.TrimEndPrefix | lib/validators.ts:28 | trimming the end keeps a prefix of the input and drops only whitespace |
| Slugs.Trim | lib/validators.ts:28 | the trimmed string is one contiguous slice of the input that neither starts nor ends with whitespace |
| Slugs.TrimDropsSpaces | lib/validators.ts:28 | every character outside the kept slice is whitespace |
| Slugs.TrimFixes | lib/validators.ts:28 | text without whitespace at either end is left unchanged |
| Slugs.StripDisallowed | lib/validators.ts:29 | only `a-z`, `0-9`, whitespace and `-` survive, and the result is no longer than the input |
| Slugs.StripCounts | lib/validators.ts:29 | every allowed character is kept as often as it occurs and every other one is removed |
| Slugs.StripKeepsOrder | lib/validators.ts:29 | the filter keeps order: filtering a concatenation concatenates the filtered parts |
| Slugs.SpacesToHyphens | lib/validators.ts:30 | after whitespace runs become hyphens only slug characters remain |
| Slugs.SpacesSquashed | lib/validators.ts:30 | turning whitespace runs into hyphens keeps the letters and digits and where they are separated |
| Slugs.CollapseHyphens | lib/validators.ts:31 | no `--` remains, and the first and last characters are kept |
| Slugs.CollapseSquashed | lib/validators.ts:31 | collapsing hyphen runs keeps the letters and digits and where they are separated, so a single hyphen between two letters or digits is never dropped |
| Slugs.StripEdgeHyphens | lib/validators.ts:32 | the result is canonical: slug characters only, no doubled or edge hyphen |
| Slugs.EdgeSquashed | lib/validators.ts:32 | dropping the edge hyphens keeps the letters and digits and where they are separated |
| Slugs.Sanitize | lib/validators.ts:25-33 | every sanitised string is canonical |
| Slugs.SquashedCanonical | lib/validators.ts:25-33 | a canonical string is its own run description: its letter-and-digit runs joined by single hyphens |
| Slugs.SanitizeIsSquashed | lib/validators.ts:25-33 | the sanitised slug is exactly the runs of letters and digits of the trimmed, lower-cased, filtered input, joined by single hyphens |
| Slugs.SanitizeKeepsAlnums | lib/validators.ts:25-33 | the sanitised slug keeps exactly the lowercased input's letters and digits, in order |
| Slugs.SanitizedInLanguage | lib/validators.ts:15-33 | every non-empty sanitised string is on the validator's grammar |
| Slugs.ValidateSanitized | lib/validators.ts:15-33 | validating a sanitised slug never fails on the grammar, only on emptiness or length |
| Slugs.SanitizeEmptyIff | lib/validators.ts:25-33 | sanitising gives the empty string iff the lowercased input has no letter or digit |
| Slugs.SanitizeFixesCanonical | lib/validators.ts:25-33 | a canonical string is returned unchanged |
| Slugs.SanitizeIdempotent | lib/validators.ts:25-33 | sanitising twice is sanitising once |
| Slugs.ValidSlugIsSanitized | lib/validators.ts:1-33 | a slug the validator accepts is its own sanitised form |
| SlugExamples.SanitizeExample | lib/validators.ts:25-33 | "My First Post!" sanitises to "my-first-post": capitals are lowered, not dropped |
| SlugExamples.ShortUppercaseReportsLength | lib/validators.ts:2-8 | "A" and "ab" report the length error, not the grammar error, and "" reports that the slug is required |
| SlugExamples.LengthBoundary | lib/validators.ts:10-12 | a grammatical slug of exactly 100 characters is valid and one of 101 is too long |
| RateLimit.CheckRateLimit | app/api/articles/route.ts:11-28 | no or an expired window: allowed, window becomes (1, now + 60000); live window below 10: allowed, count + 1, same reset time; live window at 10: rejected with the retry message, map unchanged; no other key changes |
| RateLimit.CheckPreservesBound | app/api/articles/route.ts:11-28 | no window's count ever exceeds 10 |
| RateLimit.AllowedIff | app/api/articles/route.ts:15-21 | a call is allowed iff the key's window is not both live and full |
| RateLimit.Replay | app/api/articles/route.ts:11-28 | a run of calls yields one decision per call |
| RateLimit.ReplayInLiveWindow | app/api/articles/route.ts:15-22 | inside one live window starting at count k, call i is allowed iff k + i < 10 |
| RateLimit.BurstInOneWindow | app/api/articles/route.ts:11-28 | a burst within one minute of a fresh start has its first 10 calls allowed and every later one rejected |
| RateLimit.FreshWindowAfterExpiry | app/api/articles/route.ts:15-25 | once `resetAt <= now` the call is allowed and the window restarts at (1, now + 60000) |
| Frontmatter.EscapeQuotes | app/api/articles/route.ts:90-91 | escaping adds one character per `"` and introduces nothing but backslashes |
| Frontmatter.UnescapeEscape | app/api/articles/route.ts:90-91 | removing the inserted backslashes gives back the title or description exactly |
| Frontmatter.EscapeJsonChar | app/api/articles/route.ts:94 | a character is written as itself iff it is printable and not `"` or `\`; otherwise an escape starting with `\` |
| Frontmatter.HexValueDigit | app/api/articles/route.ts:94 | the lowercase hex digit written in a `\u00xx` escape reads back as its value |
| Frontmatter.ReadEscapeJsonChar | app/api/articles/route.ts:94 | every escape `JSON.stringify` writes for a character reads back as that character |
| Frontmatter.ReadJsonEscape | app/api/articles/route.ts:94 | an escaped string body followed by its closing quote reads back as the string and the rest |
| Frontmatter.JsonArray | app/api/articles/route.ts:94 | the keywords array is written on one line |
| Frontmatter.ReadJsonArray | app/api/articles/route.ts:94 | the `JSON.stringify` form of any list of strings reads back as that list |
| Frontmatter.UnquoteQuoted | app/api/articles/route.ts:90-95 | a `key: "value"` line reads back as the value |
| Frontmatter.HeaderLines | app/api/articles/route.ts:89-99 | the header is always eleven lines, the optional image line included |
| Frontmatter.RenderLines | app/api/articles/route.ts:89-100 | splitting the document at line breaks gives the header lines followed by the body's lines |
| Frontmatter.WrittenImage | app/api/articles/route.ts:96 | the document records no image exactly when the image is absent or the empty string, and the image itself otherwise; both give the same image line |
| Frontmatter.ReadImageLine | app/api/articles/route.ts:96 | the image line reads back as the image, and as no image when the image is absent or the empty string |
| Frontmatter.ReadPublishedLine | app/api/articles/route.ts:97 | `published` is written as a boolean literal that reads back as itself |
| Frontmatter.ReadHeaderLines | app/api/articles/route.ts:89-99 | the header lines read back as every field but the body, an empty image as no image |
| Frontmatter.ReadRender | app/api/articles/route.ts:89-100 | when the single-line fields hold no line break, a rendered document reads back as the fields it was rendered from, with an empty image read as no image; with no empty image it reads back exactly |
| ArticleStore.ArticlePath | lib/github.ts:16 | the path starts with `content/articles/` and ends with `.md` |
| ArticleStore.ArticlePathInjective | lib/github.ts:16 | distinct slugs address distinct files |
| ArticleStore.GetContent | lib/github.ts:21-29 | a read reports a fault as given, 404 for a missing path, and a sha exactly for a file |
| ArticleStore.PutContent | lib/github.ts:36-46 | a write succeeds iff there is no fault and its token matches the stored file's sha (or, without a token, nothing is stored there); success stores the content under the new sha |
| ArticleStore.ErrorText | lib/github.ts:57 | the failure message is the error's own when it has one and is never empty |
| ArticleStore.ReadPhase | lib/github.ts:18-33 | the read aborts exactly on an error other than 404; any token it yields is the stored file's non-empty sha |
| ArticleStore.WriteFor | lib/github.ts:36-46 | the write addresses the article's path, carries the content, and carries the token iff one was read |
| ArticleStore.WritePhase | lib/github.ts:36-59 | exactly the write built from the token is issued; the upsert succeeds iff the remote accepts it, then stores what the remote stored under its sha, and a refusal reports the remote's message (or the fallback) and changes nothing |
| ArticleStore.CreateOrUpdateArticle | lib/github.ts:11-60 | only the article's path can change; a non-404 read error means no write and failure; otherwise one write carrying the read token, with commit message "Update article: " or "Add article: " by token; after a read, success holds iff the remote accepts that write; success reports "Article updated"/"Article created" by token and the write's new sha and stores the content; a refused write reports the remote's message (or the fallback); failure leaves the store unchanged with a non-empty message |
| ArticleStore.RefusedWriteFails | lib/github.ts:36-59 | when the read succeeds and the remote refuses the write, the upsert fails with the remote's message and nothing is stored |
| ArticleStore.HealthyUpsert | lib/github.ts:11-52 | with a healthy remote the upsert succeeds, says "Article updated" iff the file existed, and stores the content |
| ArticleStore.RepublishUpdates | lib/github.ts:11-52 | publishing the same slug twice reports an update the second time, and the second content wins |
| ArticleStore.StaleTokenIsRefused | lib/github.ts:36-59 | a write with a token the store no longer holds fails and changes nothing |
| ArticleStore.MarkdownIndices | lib/github.ts:73 | the kept names are exactly those ending in `.md`, in directory order |
| ArticleStore.ListArticles | lib/github.ts:62-82 | a directory gives each `.md` name with its first `.md` removed, in order; a file or a failed read gives the empty list |
| ArticleStore.StripMdSuffix | lib/github.ts:74 | `<stem>.md` for a dot-free stem lists as the stem |
| ArticleStore.DotFreeListedName | lib/github.ts:73-74 | a `.md` name whose listed form has no dot is that listed form followed by `.md` |
| ArticleStore.ReadArticlesDir | lib/github.ts:62-82 | reading the articles directory reports a fault as given, a file at the directory's path as a file, a missing directory as 404, and otherwise the names of exactly the entries stored under it |
| ArticleStore.ListedIffStored | lib/github.ts:62-82 | a dot-free slug is listed exactly when `content/articles/<slug>.md` is stored |
| ArticleStore.StripMdRemovesFirstOnly | lib/github.ts:74 | "a.md.md" lists as "a.md": only the first occurrence is removed |
| PublishApi.ProvidedKey | app/api/articles/route.ts:33-34 | a key is provided exactly when the header is present |
| PublishApi.UnsetKeyRejects | app/api/articles/route.ts:30-36 | with no key configured no header is authorised |
| PublishApi.BearerKeyAccepted | app/api/articles/route.ts:33-36 | `Bearer <key>` is authorised for a non-empty configured key |
| PublishApi.BareKeyAccepted | app/api/articles/route.ts:33-36 | the bare key without the `Bearer ` prefix is authorised too |
| PublishApi.ClientKey | app/api/articles/route.ts:44 | the client is the forwarded-for header when it is non-empty and "unknown" otherwise |
| PublishApi.Today | app/api/articles/route.ts:92 | the fallback date is the prefix of the timestamp before its first `T`, or the whole timestamp when it has none |
| PublishApi.DocumentFields | app/api/articles/route.ts:55-100 | the document gets the body's fields and the sanitised slug; the date falls back to today when empty or absent; keywords, author and published fall back to `[]`, "Serpmax Team" and true only when absent |
| PublishApi.Publish | app/api/articles/route.ts:67-126 | 400 with the required-field list iff a field is missing; 400 with the validator's message iff the sanitised slug is invalid; otherwise 201 iff the upsert succeeds, with its message, url `/blog/<slug>`, the write's sha and the rendered document stored, and 500 with the upsert's message iff it fails; nothing but a 201 changes the store |
| PublishApi.HealthyPublishCreates | app/api/articles/route.ts:67-126 | with a healthy remote a complete body with a valid slug gets 201, "Article updated" iff the file existed and "Article created" otherwise |
| PublishApi.CaughtMessage | app/api/articles/route.ts:130 | the catch block answers with the error's message, or "Internal server error" when it is empty |
| PublishApi.Post | app/api/articles/route.ts:30-134 | an unauthorised caller gets 401 and leaves the windows and the store unchanged; an authorised one never gets 401 and is always counted; 429 iff the limiter rejects; an admitted parsed body is answered exactly as `Publish` answers, an unparsable one with 500 and the parser's message; only a 201 changes the store |
| PublishApi.Admit | app/api/articles/route.ts:43-133 | an authorised request is counted, rejected with 429 iff the limiter says so, and otherwise answered by the publish steps or by the catch block |
| PublishApi.AdmittedRequestPublishes | app/api/articles/route.ts:30-126 | an authorised caller within its limit sending a complete body with a valid slug to a healthy remote gets 201 |
| PublishApi.UnsetKeyRejectsAll | app/api/articles/route.ts:30-41 | with no key configured every `POST` is a 401 that changes nothing |
| PublishApi.PublishedReadsBack | app/api/articles/route.ts:89-110 | after a successful publish the stored file reads back as the body's fields under the sanitised slug, an empty image as no image |
| PublishApi.FieldsSingleLine | app/api/articles/route.ts:89-97 | the document's single-line fields hold no line break when the body's do not |
| PublishApi.CreatedArticleReadsBack | app/api/articles/route.ts:30-126 | a 201 from `POST` means the stored file reads back as the body's fields, an empty image as no image |
| PublishApi.BlogUrl | app/api/articles/route.ts:122 | `/blog/<slug>` is `/blog` followed by the page url and never the page url itself |
| PublishApi.ReportedUrlIsNotPageUrl | app/api/articles/route.ts:122 | the url a 201 reports is not the article's page url |
| PublishApi.Get | app/api/articles/route.ts:136-162 | an unauthorised caller gets 401 "Unauthorized" and no listing; otherwise 200 with the slugs listed from the store's articles directory and their count |
| PublishApi.PublishedSlugIsListed | app/api/articles/route.ts:103-155 | after a 201, `GET` on the resulting store lists the published slug |
| Articles.Load | contentlayer.config.ts:9-47 | author defaults to "Serpmax Team" and published to true only when absent; keywords have no default and stay absent; other fields are kept |
| Articles.LoadUnload | contentlayer.config.ts:9-47 | loading the front matter that states every field of an article gives the article back |
| Articles.UnloadLoad | contentlayer.config.ts:34-46 | front matter with author and published present is recovered from what it loads to, so defaults apply only to absent fields |
| Articles.DefaultsAreExplicit | contentlayer.config.ts:34-46 | writing the defaulted author and published out explicitly loads to the same article |
| Articles.Url | contentlayer.config.ts:49-52 | the url is `/` followed by the slug |
| Articles.UrlInjective | contentlayer.config.ts:51 | distinct slugs have distinct urls |
| Articles.SplitOnSpaces | contentlayer.config.ts:57 | `split(/\s+/g)` yields one more piece than there are whitespace runs, and no piece holds whitespace |
| Articles.SplitOnSpacesKeepsText | contentlayer.config.ts:57 | the pieces put together are the body without its whitespace |
| Articles.MinutesFor | contentlayer.config.ts:56-58 | the result is the least whole number of minutes at 200 words a minute that covers the words |
| Articles.ReadingTime | contentlayer.config.ts:53-59 | reading time is at least one minute and is the ceiling of the word count over 200 |
| Articles.MinutesMonotone | contentlayer.config.ts:56-58 | more words never take fewer minutes |
| Articles.MinutesBoundary | contentlayer.config.ts:56-58 | 200 words are one minute and 201 are two |
| Articles.EmptyBodyOneMinute | contentlayer.config.ts:57-58 | an empty body splits into one piece and reads in one minute |
| Sorting.SortByKey | components/ComparisonTable.tsx:148 | the sort returns a permutation of its input in key order |
| Sorting.InsertSorted | components/ComparisonTable.tsx:148 | insertion keeps a sorted sequence sorted |
| Sorting.SortStable | components/ComparisonTable.tsx:148 | elements with equal keys keep their relative order |
| Sorting.SortSorted | components/ComparisonTable.tsx:148 | an already ordered sequence is returned unchanged |
| Sorting.MaxComesLast | components/ComparisonTable.tsx:148-178 | an element whose key beats every other's sorts last |
| Sorting.MinComesFirst | components/ComparisonTable.tsx:148-178 | an element whose key is below every other's sorts first |
| ComparisonTable.HandleSort | components/ComparisonTable.tsx:131-143 | another column sorts ascending; the sorted column goes ascending → descending → unsorted; column and direction stay set or cleared together |
| ComparisonTable.ThreeClicksCycle | components/ComparisonTable.tsx:131-143 | three clicks on a column not sorted by it end unsorted |
| ComparisonTable.AfterClicks | components/ComparisonTable.tsx:127-143 | every state reachable by clicks from the initial one has column and direction both set or both cleared |
| ComparisonTable.Indicator | components/ComparisonTable.tsx:103-124 | the up arrow is lit iff the column is sorted ascending, the down arrow iff descending |
| ComparisonTable.AtMostOneArrow | components/ComparisonTable.tsx:103-124 | at most one arrow in the header row is lit, on the sorted column |
| ComparisonTable.SortKey | components/ComparisonTable.tsx:148-177 | the comparator orders by the column's value or collation key, negated when descending |
| ComparisonTable.GetSortedData | components/ComparisonTable.tsx:145-179 | unsorted state gives the rows as written; otherwise a permutation in the comparator's order |
| ComparisonTable.NumericOrder | components/ComparisonTable.tsx:157-177 | a numeric column's values rise when ascending and fall when descending |
| ComparisonTable.DearestSortsLast | components/ComparisonTable.tsx:157-177 | a row whose price beats all others sorts last ascending and first descending |
| ComparisonTable.CustomPriceSortsLast | components/ComparisonTable.tsx:148-177 | with the table's rows, "Custom" pricing (Bright Data) sorts last ascending and first descending |
| ComparisonTable.TiedSearchesInOrder | components/ComparisonTable.tsx:161-177 | two rows tied on searches keep their table order in an ascending sort |
| ComparisonTable.EqualSearchesKeepTableOrder | components/ComparisonTable.tsx:145-178 | SerpApi and Zenrows, both 5,000 searches, stay in table order |
| Listings.PublishedOnly | app/blog/page.tsx:20 | the filter's result is no longer than the collection and holds only published articles |
| Listings.PublishedCounts | app/blog/page.tsx:20 | the filter keeps every published article as often as it occurs and no unpublished one |
| Listings.PublishedKeepsOrder | app/blog/page.tsx:20 | the filter keeps collection order: filtering a concatenation concatenates the filtered parts |
| Listings.PublishedSingle | app/blog/page.tsx:20 | one article is kept exactly when it is published |
| Listings.BlogPage | app/blog/page.tsx:18-21 | the index is a permutation of the published articles in newest-first order |
| Listings.BlogPageOrder | app/blog/page.tsx:19-21 | every listed article is published and dates never increase down the list |
| Listings.SameDateKeepsOrder | app/blog/page.tsx:21 | articles with the same date keep their collection order |
| Listings.OnBlogIff | app/blog/page.tsx:19-21 | an article is on the index iff it is published |
| Listings.ArticleEntry | app/sitemap.ts:7-12 | an article's entry is the origin followed by its url, dated by the article, monthly, priority 0.8 |
| Listings.Sitemap | app/sitemap.ts:4-23 | the root entry (daily, priority 1, dated now) comes first, then one entry per published article in collection order |
| Listings.BlogLinksInSitemap | app/sitemap.ts:5-12 | every article on the blog index has a sitemap entry |
| Listings.SitemapOnlyPublished | app/sitemap.ts:5-12 | every entry after the root belongs to a published article |
| Listings.SitemapKeepsOrder | app/sitemap.ts:4-23 | the sitemap of a concatenation is the first part's sitemap followed by the second part's article entries, so entries follow collection order |
| Listings.NothingPublishedRootOnly | app/sitemap.ts:14-22 | with nothing published the sitemap is the root alone |

## Left out

- Strings.ToLower: lowercases ASCII capitals only. JavaScript's `toLowerCase` lowers every Unicode capital, and some of them lower to ASCII letters: U+212A (Kelvin sign) becomes `k` and U+0130 becomes `i` plus a combining dot. Such letters survive sanitising in JavaScript but are dropped by the model.
- Slugs.ValidateSlug: lengths count Unicode scalar values (Dafny characters), while JavaScript's `length` counts UTF-16 code units, so "😀" has length 2 there and 1 here. A character outside the Basic Multilingual Plane never passes the grammar, but it can change which error is reported: "a😀" is too short here and has bad characters in JavaScript.
- `request.json()` failing is an input (`Malformed` with its message), answered 500 as the catch block does. Bodies whose fields have the wrong JSON type (a number for a title, `null` for keywords) are not modelled.
- JSON `null` for `published`, `author` or `keywords` is not modelled: a field is either absent or present with a value of its type.
- Base64 encoding of the content, the Octokit transport, `console` logging and `revalidatePath` are left out. They do not change what is stored or answered.
- The remote repository is an assumed model: a map from path to file content and sha, with the faults and the new sha passed in. Its real conflict and validation rules are not part of this model.
- The clock is passed in, as milliseconds for the limiter and as the ISO-8601 string `toISOString` would give for the date fallback.
- The limiter's read-modify-write race across concurrent requests is left out; the model is sequential.
- `GET`'s catch block is not modelled: `listArticles` already turns every error into an empty list, so the catch is unreachable.
- `localeCompare` is modelled as an integer collation key; `compareDesc` on parsed dates as an integer date key. Date parsing itself is left out.
- The comparison table's response times and accuracies are decimals in the source. They are scaled to tenths and hundredths, which keeps every comparison's sign. Floating-point subtraction in the comparator is not modelled.
- `JSON.stringify` on lone surrogates: Dafny characters are Unicode scalar values, so the `\udxxx` escape for an unpaired surrogate cannot arise.
- Frontmatter.ReadDocument: this is the inverse of the writer, not a YAML parser, and it reads back strings a YAML reader would alter or reject. Title and description escape only `"`, so a YAML reader treats any backslash in them as the start of an escape (`\n` becomes a line break; a trailing `\` swallows the closing quote). Date, author and image are written with no escaping at all, so any `"` or `\` in them breaks the line or is altered by a YAML reader. The model's reader still reads all of these back unchanged.
- Frontmatter.ReadRender: stated only for fields without a line break in title, description, date, slug, author or image, because a line break in a field shifts the header's lines. Author and image are interpolated without escaping, as in the source.
- PublishApi.PublishedReadsBack: stated only for a body and clock without a line break in those fields, for the same reason.
- PublishApi.CreatedArticleReadsBack: stated only for a body and clock without a line break in those fields, for the same reason.
- The presentational pages and components (navigation, hero, footer, article page, admin redirect) and configuration files are outside this model.
