/**
 The article document type of the content layer: the fields read from an
 article's front matter, the defaults for the optional ones, and the two
 computed fields, the page url and the reading time.
 */
module Articles {
  import opened Options
  import opened Strings

  const DefaultAuthor: string := "Serpmax Team"
  const WordsPerMinute: nat := 200

  /**
   An article as the site sees it. `date` is the parsed front matter date as
   a point in time (milliseconds since the epoch); `body` is the raw markdown.
   */
  datatype Article = Article(
    title: string,
    description: string,
    date: int,
    slug: string,
    keywords: Option<seq<string>>,
    author: string,
    image: Option<string>,
    published: bool,
    body: string)

  /** The front matter as read from the file: optional fields may be absent. */
  datatype RawArticle = RawArticle(
    title: string,
    description: string,
    date: int,
    slug: string,
    keywords: Option<seq<string>>,
    author: Option<string>,
    image: Option<string>,
    published: Option<bool>,
    body: string)

  /**
   The field definitions: `author` defaults to the team name and `published`
   to true, each only when the field is absent; `keywords` has no default
   and stays absent when absent; everything else is taken as written.
   */
  function Load(raw: RawArticle): (a: Article)
    ensures a.author == (if raw.author.Some? then raw.author.value else DefaultAuthor)
    ensures a.published <==> (raw.published.None? || raw.published.value)
    ensures a.keywords == raw.keywords
    ensures a.title == raw.title && a.description == raw.description && a.date == raw.date
    ensures a.slug == raw.slug && a.image == raw.image && a.body == raw.body
  {
    Article(raw.title, raw.description, raw.date, raw.slug, raw.keywords,
            raw.author.GetOr(DefaultAuthor), raw.image, raw.published.GetOr(true), raw.body)
  }

  /** The front matter that states every defaulted field explicitly. */
  function Unload(a: Article): (raw: RawArticle)
    ensures raw.author == Some(a.author) && raw.published == Some(a.published)
    ensures raw.keywords == a.keywords && raw.image == a.image
  {
    RawArticle(a.title, a.description, a.date, a.slug, a.keywords, Some(a.author), a.image, Some(a.published), a.body)
  }

  /** Loading the explicit front matter of an article gives the article back. */
  lemma LoadUnload(a: Article)
    ensures Load(Unload(a)) == a
  {
  }

  /**
   A default applies only to an absent field: front matter with author and
   published present is recovered from what it loads to.
   */
  lemma UnloadLoad(raw: RawArticle)
    requires raw.author.Some? && raw.published.Some?
    ensures Unload(Load(raw)) == raw
  {
  }

  /** Writing a default out explicitly changes nothing. */
  lemma DefaultsAreExplicit(raw: RawArticle)
    ensures Load(raw) == Load(raw.(author := Some(Load(raw).author), published := Some(Load(raw).published)))
  {
  }

  /** The computed `url`: the article's page sits at the site root, `/<slug>`. */
  function Url(a: Article): (u: string)
    ensures |u| == |a.slug| + 1 && u[0] == '/' && u[1..] == a.slug
  {
    ['/'] + a.slug
  }

  /** Distinct slugs give distinct urls. */
  lemma UrlInjective(a: Article, b: Article)
    requires Url(a) == Url(b)
    ensures a.slug == b.slug
  {
    assert a.slug == Url(a)[1..];
  }

  // ---------------------------------------------------------------------------
  // Reading time: `Math.ceil(body.split(/\s+/g).length / 200)`
  // ---------------------------------------------------------------------------

  /** Number of maximal runs of whitespace in `s`. */
  function SpaceRuns(s: string): nat {
    if s == [] then 0
    else (if IsJsSpace(s[0]) && (|s| == 1 || !IsJsSpace(s[1])) then 1 else 0) + SpaceRuns(s[1..])
  }

  /** `s` with every whitespace character removed. */
  function WithoutSpaces(s: string): (r: string)
    ensures forall c :: c in r ==> !IsJsSpace(c)
  {
    if s == [] then []
    else (if IsJsSpace(s[0]) then [] else [s[0]]) + WithoutSpaces(s[1..])
  }

  function Concat(parts: seq<string>): string {
    if parts == [] then [] else parts[0] + Concat(parts[1..])
  }

  /**
   `s.split(/\s+/g)`: the pieces between maximal whitespace runs, empty
   pieces at the ends included. There is one more piece than runs.
   */
  function SplitOnSpaces(s: string): (pieces: seq<string>)
    ensures |pieces| == SpaceRuns(s) + 1
    ensures forall k, c :: 0 <= k < |pieces| && c in pieces[k] ==> !IsJsSpace(c)
  {
    if s == [] then [[]]
    else
      var rest := SplitOnSpaces(s[1..]);
      if IsJsSpace(s[0]) then
        (if |s| > 1 && IsJsSpace(s[1]) then rest else [[]] + rest)
      else
        [[s[0]] + rest[0]] + rest[1..]
  }

  /** Splitting drops exactly the whitespace: the pieces put together are the non-space text. */
  lemma {:induction false} SplitOnSpacesKeepsText(s: string)
    ensures Concat(SplitOnSpaces(s)) == WithoutSpaces(s)
  {
    if s != [] {
      var rest := SplitOnSpaces(s[1..]);
      SplitOnSpacesKeepsText(s[1..]);
      if IsJsSpace(s[0]) {
        if !(|s| > 1 && IsJsSpace(s[1])) {
          assert ([[]] + rest)[1..] == rest;
        }
      } else {
        var pieces := [[s[0]] + rest[0]] + rest[1..];
        assert pieces[1..] == rest[1..];
        assert Concat(rest) == rest[0] + Concat(rest[1..]);
      }
    }
  }

  /** The word count the reading time is based on. */
  function WordCount(body: string): (n: nat)
    ensures n >= 1
  {
    |SplitOnSpaces(body)|
  }

  /** Whole minutes needed for `words` words at 200 a minute, rounded up. */
  function MinutesFor(words: nat): (m: nat)
    ensures WordsPerMinute * m >= words
    ensures m > 0 ==> WordsPerMinute * (m - 1) < words
  {
    (words + WordsPerMinute - 1) / WordsPerMinute
  }

  /** The computed `readingTime`. */
  function ReadingTime(a: Article): (m: nat)
    ensures m >= 1
    ensures WordsPerMinute * (m - 1) < SpaceRuns(a.body) + 1 <= WordsPerMinute * m
  {
    MinutesFor(WordCount(a.body))
  }

  /** More words never take less time. */
  lemma MinutesMonotone(a: nat, b: nat)
    requires a <= b
    ensures MinutesFor(a) <= MinutesFor(b)
  {
  }

  /** Two hundred words are one minute; the two hundred and first starts a second. */
  lemma MinutesBoundary()
    ensures MinutesFor(200) == 1 && MinutesFor(201) == 2 && MinutesFor(1) == 1
  {
  }

  /** An empty body still splits into one (empty) piece and so reads in one minute. */
  lemma EmptyBodyOneMinute(a: Article)
    requires a.body == []
    ensures WordCount(a.body) == 1 && ReadingTime(a) == 1
  {
  }
}
