/**
 The two pages built from the whole article collection: the blog index
 (published articles, newest first, each linking to its url) and the
 sitemap (the site root, then one entry per published article).
 */
module Listings {
  import opened Articles
  import opened Sorting
  import opened Strings

  /** `articles.filter(a => a.published)`. */
  function PublishedOnly(articles: seq<Article>): (r: seq<Article>)
    ensures |r| <= |articles|
    ensures forall i :: 0 <= i < |r| ==> r[i].published
  {
    if articles == [] then []
    else (if articles[0].published then [articles[0]] else []) + PublishedOnly(articles[1..])
  }

  /** The filter keeps every published article as often as it occurs, and no other. */
  lemma {:induction false} PublishedCounts(articles: seq<Article>)
    ensures forall a :: multiset(PublishedOnly(articles))[a] == (if a.published then multiset(articles)[a] else 0)
  {
    if articles != [] {
      PublishedCounts(articles[1..]);
      PublishedCons(articles[0], articles[1..]);
      assert articles == [articles[0]] + articles[1..];
    }
  }

  /** The filter with a given head. */
  lemma PublishedCons(x: Article, t: seq<Article>)
    ensures PublishedOnly([x] + t) == (if x.published then [x] else []) + PublishedOnly(t)
  {
    assert ([x] + t)[0] == x && ([x] + t)[1..] == t;
  }

  /**
   The filter keeps collection order: filtering a concatenation is
   concatenating the filtered parts.
   */
  lemma {:induction false} PublishedKeepsOrder(a: seq<Article>, b: seq<Article>)
    ensures PublishedOnly(a + b) == PublishedOnly(a) + PublishedOnly(b)
  {
    if a == [] {
      assert a + b == b;
    } else {
      var h := if a[0].published then [a[0]] else [];
      PublishedKeepsOrder(a[1..], b);
      ConsAppend(a, b);
      PublishedCons(a[0], a[1..] + b);
      PublishedHead(a);
      AppendAssoc(h, PublishedOnly(a[1..]), PublishedOnly(b));
    }
  }

  /** The filter of a non-empty sequence, by its head. */
  lemma PublishedHead(a: seq<Article>)
    requires a != []
    ensures PublishedOnly(a) == (if a[0].published then [a[0]] else []) + PublishedOnly(a[1..])
  {
  }

  /** One article is kept exactly when it is published. */
  lemma PublishedSingle(x: Article)
    ensures PublishedOnly([x]) == (if x.published then [x] else [])
  {
    PublishedCons(x, []);
    assert [x] + [] == [x];
  }

  /** `compareDesc` on dates as a sort key: later dates sort first. */
  function NewestFirst(a: Article): int {
    -a.date
  }

  /**
   The blog index: the published articles ordered by date, newest first;
   articles with the same date keep their collection order.
   */
  function BlogPage(articles: seq<Article>): (page: seq<Article>)
    ensures multiset(page) == multiset(PublishedOnly(articles))
    ensures SortedByKey(page, NewestFirst)
  {
    SortByKey(PublishedOnly(articles), NewestFirst)
  }

  /** The blog index shows only published articles, and later dates come first. */
  lemma BlogPageOrder(articles: seq<Article>)
    ensures forall i :: 0 <= i < |BlogPage(articles)| ==> BlogPage(articles)[i].published
    ensures forall i, j :: 0 <= i < j < |BlogPage(articles)| ==> BlogPage(articles)[i].date >= BlogPage(articles)[j].date
  {
    var page := BlogPage(articles);
    forall i | 0 <= i < |page|
      ensures page[i].published
    {
      assert page[i] in multiset(PublishedOnly(articles));
    }
    forall i, j | 0 <= i < j < |page|
      ensures page[i].date >= page[j].date
    {
      assert NewestFirst(page[i]) <= NewestFirst(page[j]);
    }
  }

  /** Articles published on the same date as `a` appear in collection order. */
  lemma SameDateKeepsOrder(articles: seq<Article>, a: Article)
    ensures var k := NewestFirst(a);
      WithKey(BlogPage(articles), NewestFirst, k) == WithKey(PublishedOnly(articles), NewestFirst, k)
  {
    SortStable(PublishedOnly(articles), NewestFirst, NewestFirst(a));
  }

  /** An article is on the blog index exactly when it is published. */
  lemma OnBlogIff(articles: seq<Article>, a: Article)
    requires a in articles
    ensures a in BlogPage(articles) <==> a.published
  {
    PublishedCounts(articles);
    assert multiset(articles)[a] > 0;
    assert a in BlogPage(articles) <==> multiset(BlogPage(articles))[a] > 0;
  }

  // ---------------------------------------------------------------------------
  // Sitemap
  // ---------------------------------------------------------------------------

  const Origin: string := "https://serpapis.com"

  datatype Frequency = Daily | Monthly

  /** One sitemap entry; the priority is kept in tenths (1 is 10, 0.8 is 8). */
  datatype Entry = Entry(url: string, lastModified: int, changeFrequency: Frequency, priorityTenths: nat)

  /** The entry for one article: its absolute url, dated by the article. */
  function ArticleEntry(a: Article): (e: Entry)
    ensures e.url == Origin + Url(a) && e.lastModified == a.date
    ensures e.changeFrequency == Monthly && e.priorityTenths == 8
  {
    Entry(Origin + Url(a), a.date, Monthly, 8)
  }

  /**
   The sitemap at time `now`: the site root first (daily, priority 1, dated
   now), then one entry per published article in collection order.
   */
  function Sitemap(articles: seq<Article>, now: int): (entries: seq<Entry>)
    ensures |entries| == 1 + |PublishedOnly(articles)|
    ensures entries[0] == Entry(Origin, now, Daily, 10)
    ensures forall i :: 0 <= i < |PublishedOnly(articles)| ==>
      entries[i + 1] == ArticleEntry(PublishedOnly(articles)[i])
  {
    var published := PublishedOnly(articles);
    ShiftByOne(Entry(Origin, now, Daily, 10), ArticleEntries(published));
    [Entry(Origin, now, Daily, 10)] + ArticleEntries(published)
  }

  /** Putting `x` in front shifts every element one place on. */
  lemma ShiftByOne<T>(x: T, s: seq<T>)
    ensures |[x] + s| == 1 + |s| && ([x] + s)[0] == x
    ensures forall i :: 0 <= i < |s| ==> ([x] + s)[i + 1] == s[i]
  {
  }

  /** One entry per article, in order. */
  function ArticleEntries(articles: seq<Article>): (entries: seq<Entry>)
    ensures |entries| == |articles|
    ensures forall i :: 0 <= i < |articles| ==> entries[i] == ArticleEntry(articles[i])
  {
    seq(|articles|, i requires 0 <= i < |articles| => ArticleEntry(articles[i]))
  }

  /** Entries of a concatenation are the entries of its parts. */
  lemma EntriesAppend(p: seq<Article>, q: seq<Article>)
    ensures ArticleEntries(p + q) == ArticleEntries(p) + ArticleEntries(q)
  {
    var l, r := ArticleEntries(p + q), ArticleEntries(p) + ArticleEntries(q);
    forall i | 0 <= i < |l|
      ensures l[i] == r[i]
    {
      if i < |p| {
        assert (p + q)[i] == p[i];
      } else {
        assert (p + q)[i] == q[i - |p|];
      }
    }
  }

  /**
   The sitemap follows collection order: the sitemap of `a + b` is that of
   `a` followed by the article entries of `b`.
   */
  lemma SitemapKeepsOrder(a: seq<Article>, b: seq<Article>, now: int)
    ensures Sitemap(a + b, now) == Sitemap(a, now) + Sitemap(b, now)[1..]
  {
    PublishedKeepsOrder(a, b);
    EntriesAppend(PublishedOnly(a), PublishedOnly(b));
    var root := [Entry(Origin, now, Daily, 10)];
    assert Sitemap(b, now)[1..] == ArticleEntries(PublishedOnly(b));
    AppendAssoc(root, ArticleEntries(PublishedOnly(a)), ArticleEntries(PublishedOnly(b)));
  }

  /** Every article on the blog index has a sitemap entry at its own url and date. */
  lemma BlogLinksInSitemap(articles: seq<Article>, now: int, a: Article)
    requires a in BlogPage(articles)
    ensures ArticleEntry(a) in Sitemap(articles, now)
  {
    var published := PublishedOnly(articles);
    assert a in multiset(published);
    var i :| 0 <= i < |published| && published[i] == a;
    assert Sitemap(articles, now)[i + 1] == ArticleEntry(a);
  }

  /** Every sitemap entry after the root belongs to a published article. */
  lemma SitemapOnlyPublished(articles: seq<Article>, now: int, k: int)
    requires 1 <= k < |Sitemap(articles, now)|
    ensures exists a :: a in articles && a.published && Sitemap(articles, now)[k] == ArticleEntry(a)
  {
    var published := PublishedOnly(articles);
    PublishedCounts(articles);
    var a := published[k - 1];
    assert a in multiset(published);
    assert multiset(articles)[a] > 0;
  }

  /** With no published article the sitemap is the root alone. */
  lemma NothingPublishedRootOnly(articles: seq<Article>, now: int)
    requires forall i :: 0 <= i < |articles| ==> !articles[i].published
    ensures Sitemap(articles, now) == [Entry(Origin, now, Daily, 10)]
  {
    var published := PublishedOnly(articles);
    PublishedCounts(articles);
    forall a: Article
      ensures multiset(published)[a] == 0
    {
      if a.published {
        assert a !in articles;
      }
    }
    assert multiset(published) == multiset{};
  }
}
