/**
 The article publishing endpoint: `POST` creates or updates one article from
 a JSON body, `GET` lists the stored slugs. Both are gated by a bearer key.

 The endpoint's state is the rate limiter's windows and the remote store.
 What the environment provides (the configured key, the clock, the remote's
 behaviour, the directory listing) is passed in.
 */
module PublishApi {
  import opened Options
  import opened Strings
  import opened Slugs
  import opened ArticleStore
  import opened Frontmatter
  import RateLimit
  import Articles

  /** The JSON body; every field may be absent. */
  datatype Body = Body(
    title: Option<string>,
    description: Option<string>,
    date: Option<string>,
    slug: Option<string>,
    keywords: Option<seq<string>>,
    author: Option<string>,
    image: Option<string>,
    content: Option<string>,
    published: Option<bool>)

  /** The request body parsed as JSON, or the parser's error message. */
  datatype Payload = Json(body: Body) | Malformed(message: string)

  /** The `authorization` and `x-forwarded-for` headers and the body. */
  datatype Request = Request(authorization: Option<string>, forwardedFor: Option<string>, payload: Payload)

  /** The configured key (it may be unset), the clock in milliseconds and the same instant as an ISO-8601 string. */
  datatype Env = Env(apiKey: Option<string>, nowMs: int, nowIso: string)

  datatype Server = Server(limits: RateLimit.Limits, store: Store)

  datatype Reply =
    | ErrorReply(error: string)
    | MissingFields(error: string, required: seq<string>)
    | Created(message: string, slug: string, url: string, sha: Option<string>)
    | ArticleList(articles: seq<string>, total: nat)

  datatype Response = Response(status: int, reply: Reply)

  const InvalidKeyMessage: string := "Unauthorized - Invalid API key"
  const UnauthorizedMessage: string := "Unauthorized"
  const MissingFieldsMessage: string := "Missing required fields"
  const InternalErrorMessage: string := "Internal server error"
  const RequiredFields: seq<string> := ["title", "description", "slug", "content"]
  const BlogPrefix: string := "/blog/"
  const UnknownClient: string := "unknown"

  // ---------------------------------------------------------------------------
  // The key check
  // ---------------------------------------------------------------------------

  /** `authHeader?.replace('Bearer ', '')`: the first `Bearer ` anywhere in the header is removed. */
  function ProvidedKey(authorization: Option<string>): (k: Option<string>)
    ensures k.Some? <==> authorization.Some?
  {
    match authorization
    case None => None
    case Some(h) => Some(ReplaceFirst(h, "Bearer ", ""))
  }

  /** `!providedKey || providedKey !== API_KEY` is false: a non-empty key equal to the configured one. */
  predicate Authorized(authorization: Option<string>, apiKey: Option<string>) {
    var k := ProvidedKey(authorization);
    k.Some? && k.value != [] && apiKey == Some(k.value)
  }

  /** With no key configured nothing is authorised. */
  lemma UnsetKeyRejects(authorization: Option<string>)
    ensures !Authorized(authorization, None)
  {
  }

  /** `Bearer <key>` passes when `<key>` is the configured, non-empty key. */
  lemma BearerKeyAccepted(key: string)
    requires key != []
    ensures Authorized(Some("Bearer " + key), Some(key))
  {
    var h := "Bearer " + key;
    assert h[..7] == "Bearer ";
    assert IndexOf(h, "Bearer ") == Some(0);
    assert ReplaceFirst(h, "Bearer ", "") == h[7..] == key;
  }

  /** The prefix is optional: the bare key passes too, as long as it does not itself contain `Bearer `. */
  lemma BareKeyAccepted(key: string)
    requires key != []
    requires IndexOf(key, "Bearer ").None?
    ensures Authorized(Some(key), Some(key))
  {
  }

  // ---------------------------------------------------------------------------
  // POST
  // ---------------------------------------------------------------------------

  /** `headers.get('x-forwarded-for') || 'unknown'`. */
  function ClientKey(forwardedFor: Option<string>): (key: string)
    ensures forwardedFor.Some? && forwardedFor.value != [] ==> key == forwardedFor.value
    ensures forwardedFor.None? || forwardedFor.value == [] ==> key == UnknownClient
  {
    if forwardedFor.Some? && forwardedFor.value != [] then forwardedFor.value else UnknownClient
  }

  /** A JavaScript truthy string: present and not empty. */
  predicate Truthy(s: Option<string>) {
    s.Some? && s.value != []
  }

  /** `!title || !description || !slug || !content`. */
  predicate MissingRequired(body: Body) {
    !Truthy(body.title) || !Truthy(body.description) || !Truthy(body.slug) || !Truthy(body.content)
  }

  /** `new Date().toISOString().split('T')[0]`: the calendar date of the clock. */
  function Today(nowIso: string): (d: string)
    ensures 'T' !in d
    ensures 'T' in nowIso ==> |d| < |nowIso| && nowIso[..|d|] == d && nowIso[|d|] == 'T'
    ensures 'T' !in nowIso ==> d == nowIso
  {
    SplitFirst(nowIso, 'T');
    Split(nowIso, 'T')[0]
  }

  /**
   The values the document is written from: the body's fields with the
   sanitised slug, the date defaulting to today when it is empty or absent,
   and keywords, author and published defaulting only when absent.
   */
  function DocumentFields(body: Body, slug: string, nowIso: string): (f: Fields)
    requires !MissingRequired(body)
    ensures f.title == body.title.value && f.description == body.description.value
    ensures f.content == body.content.value && f.slug == slug && f.image == body.image
    ensures f.date == (if Truthy(body.date) then body.date.value else Today(nowIso))
    ensures f.keywords == (if body.keywords.Some? then body.keywords.value else [])
    ensures f.author == (if body.author.Some? then body.author.value else Articles.DefaultAuthor)
    ensures f.published <==> (body.published.None? || body.published.value)
  {
    Fields(
      body.title.value,
      body.description.value,
      if Truthy(body.date) then body.date.value else Today(nowIso),
      slug,
      body.keywords.GetOr([]),
      body.author.GetOr(Articles.DefaultAuthor),
      body.image,
      body.published.GetOr(true),
      body.content.value)
  }

  /** Steps 4 to 7 of `POST`, once the caller is admitted and the body parsed. */
  function Publish(store: Store, body: Body, env: Env, remote: Remote): (r: (Response, Store))
    ensures r.0.status in {201, 400, 500}
    ensures r.0.status != 201 ==> r.1 == store
    ensures r.0.status == 400 <==>
      MissingRequired(body) || ValidateSlug(Sanitize(body.slug.value)).Invalid?
    ensures MissingRequired(body) ==>
      r.0 == Response(400, MissingFields(MissingFieldsMessage, RequiredFields))
    ensures !MissingRequired(body) && ValidateSlug(Sanitize(body.slug.value)).Invalid? ==>
      r.0 == Response(400, ErrorReply(ValidateSlug(Sanitize(body.slug.value)).error.Message()))
    ensures r.0.status == 201 ==>
      && !MissingRequired(body)
      && var slug := Sanitize(body.slug.value);
      && ValidateSlug(slug).Valid?
      && r.0.reply.Created?
      && r.0.reply.slug == slug
      && r.0.reply.url == BlogPrefix + slug
      && r.0.reply.sha == Some(remote.newSha)
      && r.1 == store[ArticlePath(slug) := File(Render(DocumentFields(body, slug, env.nowIso)), remote.newSha)]
    // a complete body with a valid slug is answered by the upsert: 201 with its message when it
    // succeeds, 500 with its message when it fails
    ensures !MissingRequired(body) && ValidateSlug(Sanitize(body.slug.value)).Valid? ==>
      var slug := Sanitize(body.slug.value);
      var u := CreateOrUpdateArticle(store, slug, Render(DocumentFields(body, slug, env.nowIso)), remote).result;
      && (r.0.status == 201 <==> u.success)
      && (r.0.status == 500 ==> r.0.reply == ErrorReply(u.message))
      && (r.0.status == 201 ==> r.0.reply.message == u.message)
  {
    if MissingRequired(body) then
      (Response(400, MissingFields(MissingFieldsMessage, RequiredFields)), store)
    else
      var slug := Sanitize(body.slug.value);
      match ValidateSlug(slug)
      case Invalid(e) => (Response(400, ErrorReply(e.Message())), store)
      case Valid =>
        var u := CreateOrUpdateArticle(store, slug, Render(DocumentFields(body, slug, env.nowIso)), remote);
        if !u.result.success then
          (Response(500, ErrorReply(u.result.message)), store)
        else
          (Response(201, Created(u.result.message, slug, BlogPrefix + slug, u.result.sha)), u.store)
  }

  /**
   With a healthy remote, a complete body whose slug is valid is published:
   201, reporting "created" for a new article and "updated" for one that
   already had a file.
   */
  lemma HealthyPublishCreates(store: Store, body: Body, env: Env, newSha: string)
    requires !MissingRequired(body) && ValidateSlug(Sanitize(body.slug.value)).Valid?
    requires var path := ArticlePath(Sanitize(body.slug.value));
      path !in store || (store[path].File? && store[path].sha != [])
    ensures var r := Publish(store, body, env, Healthy(newSha)).0;
      && r.status == 201
      && r.reply.message == (if ArticlePath(Sanitize(body.slug.value)) in store then UpdatedMessage else CreatedMessage)
  {
    var slug := Sanitize(body.slug.value);
    HealthyUpsert(store, slug, Render(DocumentFields(body, slug, env.nowIso)), newSha);
  }

  /** `error.message || 'Internal server error'`: the catch block's answer. */
  function CaughtMessage(m: string): (e: string)
    ensures e != []
    ensures m != [] ==> e == m
  {
    if m == [] then InternalErrorMessage else m
  }

  /** The limiter's verdict and windows for this request. */
  function RateCheck(server: Server, req: Request, env: Env): (RateLimit.Decision, RateLimit.Limits) {
    RateLimit.CheckRateLimit(server.limits, ClientKey(req.forwardedFor), env.nowMs)
  }

  /**
   `POST /api/articles`: the key check, then the rate limit, then the body.
   An unparsable body is answered 500 with the parser's message.
   */
  function Post(server: Server, req: Request, env: Env, remote: Remote): (r: (Response, Server))
    ensures r.0.status in {201, 400, 401, 429, 500}
    // a caller without the key is turned away before anything is counted
    ensures !Authorized(req.authorization, env.apiKey) ==>
      r.0 == Response(401, ErrorReply(InvalidKeyMessage)) && r.1 == server
    // a caller with the key is never told it lacks one
    ensures Authorized(req.authorization, env.apiKey) ==> r.0.status != 401
    // every admitted caller's request is counted, whatever follows
    ensures Authorized(req.authorization, env.apiKey) ==> r.1.limits == RateCheck(server, req, env).1
    ensures r.0.status == 429 <==>
      Authorized(req.authorization, env.apiKey) && RateCheck(server, req, env).0.Rejected?
    ensures r.0.status == 429 ==> r.0.reply == ErrorReply(RateLimit.RetryMessage)
    // only a 201 changes the store
    ensures r.0.status != 201 ==> r.1.store == server.store
    ensures r.0.status == 201 ==>
      && req.payload.Json?
      && (r.0, r.1.store) == Publish(server.store, req.payload.body, env, remote)
    // an admitted, parsed request is answered by the publish steps
    ensures Authorized(req.authorization, env.apiKey) && RateCheck(server, req, env).0.Allowed? && req.payload.Json? ==>
      (r.0, r.1.store) == Publish(server.store, req.payload.body, env, remote)
    // an admitted request whose body does not parse is a 500 with the parser's message
    ensures Authorized(req.authorization, env.apiKey) && RateCheck(server, req, env).0.Allowed? && req.payload.Malformed? ==>
      r.0 == Response(500, ErrorReply(CaughtMessage(req.payload.message)))
  {
    if !Authorized(req.authorization, env.apiKey) then
      (Response(401, ErrorReply(InvalidKeyMessage)), server)
    else
      Admit(server, req, env, remote)
  }

  /** The request of a caller with the key: the rate limit, then the body. */
  function Admit(server: Server, req: Request, env: Env, remote: Remote): (r: (Response, Server))
    ensures r.0.status in {201, 400, 429, 500}
    ensures r.1.limits == RateCheck(server, req, env).1
    ensures r.0.status == 429 <==> RateCheck(server, req, env).0.Rejected?
    ensures r.0.status == 429 ==> r.0.reply == ErrorReply(RateLimit.RetryMessage)
    ensures r.0.status != 201 ==> r.1.store == server.store
    ensures r.0.status == 201 ==> req.payload.Json?
    ensures RateCheck(server, req, env).0.Allowed? && req.payload.Json? ==>
      (r.0, r.1.store) == Publish(server.store, req.payload.body, env, remote)
    ensures RateCheck(server, req, env).0.Allowed? && req.payload.Malformed? ==>
      r.0 == Response(500, ErrorReply(CaughtMessage(req.payload.message)))
  {
    var check := RateCheck(server, req, env);
    var admitted := server.(limits := check.1);
    if check.0.Rejected? then
      (Response(429, ErrorReply(check.0.message)), admitted)
    else match req.payload
      case Malformed(m) =>
        (Response(500, ErrorReply(CaughtMessage(m))), admitted)
      case Json(body) =>
        var published := Publish(server.store, body, env, remote);
        (published.0, admitted.(store := published.1))
  }

  /**
   Through the endpoint: a caller with the key, within its rate limit,
   sending a complete body with a valid slug to a healthy remote gets a 201.
   */
  lemma AdmittedRequestPublishes(server: Server, req: Request, env: Env, newSha: string)
    requires Authorized(req.authorization, env.apiKey) && RateCheck(server, req, env).0.Allowed?
    requires req.payload.Json?
    requires var body := req.payload.body;
      !MissingRequired(body) && ValidateSlug(Sanitize(body.slug.value)).Valid?
    requires var path := ArticlePath(Sanitize(req.payload.body.slug.value));
      path !in server.store || (server.store[path].File? && server.store[path].sha != [])
    ensures Post(server, req, env, Healthy(newSha)).0.status == 201
  {
    HealthyPublishCreates(server.store, req.payload.body, env, newSha);
  }

  /** An endpoint without a configured key answers every request 401 and changes nothing. */
  lemma UnsetKeyRejectsAll(server: Server, req: Request, env: Env, remote: Remote)
    requires env.apiKey.None?
    ensures Post(server, req, env, remote) == (Response(401, ErrorReply(InvalidKeyMessage)), server)
  {
    UnsetKeyRejects(req.authorization);
  }

  /**
   What a successful publish leaves in the store: the article's file holds a
   document that reads back as the body's fields under the sanitised slug,
   whenever the single-line fields hold no line break.
   */
  lemma PublishedReadsBack(store: Store, body: Body, env: Env, remote: Remote)
    requires Publish(store, body, env, remote).0.status == 201
    requires && (body.title.Some? ==> '\n' !in body.title.value)
             && (body.description.Some? ==> '\n' !in body.description.value)
             && (body.date.Some? ==> '\n' !in body.date.value)
             && (body.author.Some? ==> '\n' !in body.author.value)
             && (body.image.Some? ==> '\n' !in body.image.value)
             && '\n' !in env.nowIso
    ensures !MissingRequired(body)
    ensures var slug := Sanitize(body.slug.value);
      var after := Publish(store, body, env, remote).1;
      && ArticlePath(slug) in after
      && after[ArticlePath(slug)].File?
      && ReadDocument(after[ArticlePath(slug)].content) == Some(WrittenFields(DocumentFields(body, slug, env.nowIso)))
  {
    var slug := Sanitize(body.slug.value);
    var f := DocumentFields(body, slug, env.nowIso);
    var after := Publish(store, body, env, remote).1;
    assert after == store[ArticlePath(slug) := File(Render(f), remote.newSha)];
    FieldsSingleLine(body, slug, env.nowIso);
    ReadRender(f);
  }

  /** The document's single-line fields hold no line break when the body's do not. */
  lemma FieldsSingleLine(body: Body, slug: string, nowIso: string)
    requires !MissingRequired(body)
    requires AllSlugChars(slug)
    requires && '\n' !in body.title.value && '\n' !in body.description.value
             && (body.date.Some? ==> '\n' !in body.date.value)
             && (body.author.Some? ==> '\n' !in body.author.value)
             && (body.image.Some? ==> '\n' !in body.image.value)
             && '\n' !in nowIso
    ensures SingleLine(DocumentFields(body, slug, nowIso))
  {
    assert '\n' !in slug by {
      assert forall i :: 0 <= i < |slug| ==> IsSlugChar(slug[i]);
    }
  }

  /** The same through the endpoint: a 201 answer means the body's article is stored and reads back. */
  lemma CreatedArticleReadsBack(server: Server, req: Request, env: Env, remote: Remote)
    requires Post(server, req, env, remote).0.status == 201
    requires req.payload.Json?
    requires var b := req.payload.body;
      && (b.title.Some? ==> '\n' !in b.title.value)
      && (b.description.Some? ==> '\n' !in b.description.value)
      && (b.date.Some? ==> '\n' !in b.date.value)
      && (b.author.Some? ==> '\n' !in b.author.value)
      && (b.image.Some? ==> '\n' !in b.image.value)
      && '\n' !in env.nowIso
    ensures var b := req.payload.body;
      var slug := Sanitize(b.slug.value);
      var store := Post(server, req, env, remote).1.store;
      && !MissingRequired(b)
      && ArticlePath(slug) in store
      && store[ArticlePath(slug)].File?
      && ReadDocument(store[ArticlePath(slug)].content) == Some(WrittenFields(DocumentFields(b, slug, env.nowIso)))
  {
    PublishedReadsBack(server.store, req.payload.body, env, remote);
  }

  /** `/blog/<slug>` is `/blog` followed by the page url `/<slug>`, and never the page url itself. */
  lemma BlogUrl(a: Articles.Article)
    ensures BlogPrefix + a.slug == "/blog" + Articles.Url(a)
    ensures BlogPrefix + a.slug != Articles.Url(a)
  {
    assert |BlogPrefix + a.slug| == |Articles.Url(a)| + 5;
  }

  /** The url a 201 reports is under `/blog/`, not the article's page url `/<slug>`. */
  lemma ReportedUrlIsNotPageUrl(server: Server, req: Request, env: Env, remote: Remote, a: Articles.Article)
    requires Post(server, req, env, remote).0.status == 201
    requires a.slug == Post(server, req, env, remote).0.reply.slug
    ensures Post(server, req, env, remote).0.reply.url == "/blog" + Articles.Url(a)
    ensures Post(server, req, env, remote).0.reply.url != Articles.Url(a)
  {
    BlogUrl(a);
  }

  // ---------------------------------------------------------------------------
  // GET
  // ---------------------------------------------------------------------------

  /**
   `GET /api/articles`: the slugs in the articles directory of `store` and how
   many there are. `fault` is a failure the remote imposes on the read and
   `names` the directory's entries in the order the remote reports them.
   */
  function Get(req: Request, env: Env, store: Store, fault: Option<RemoteError>, names: seq<string>): (r: Response)
    requires ListsDirectory(store, names)
    ensures !Authorized(req.authorization, env.apiKey) ==> r == Response(401, ErrorReply(UnauthorizedMessage))
    ensures Authorized(req.authorization, env.apiKey) ==>
      var slugs := ListArticles(ReadArticlesDir(store, fault, names));
      r == Response(200, ArticleList(slugs, |slugs|))
  {
    if !Authorized(req.authorization, env.apiKey) then
      Response(401, ErrorReply(UnauthorizedMessage))
    else
      var slugs := ListArticles(ReadArticlesDir(store, fault, names));
      Response(200, ArticleList(slugs, |slugs|))
  }

  /**
   A slug published with a 201 is listed by `GET` when the directory is read
   afterwards without a fault.
   */
  lemma PublishedSlugIsListed(server: Server, req: Request, env: Env, remote: Remote, names: seq<string>)
    requires Post(server, req, env, remote).0.status == 201
    requires !DirIsFile(server.store)
    requires ListsDirectory(Post(server, req, env, remote).1.store, names)
    ensures var r := Post(server, req, env, remote);
      r.0.reply.slug in Get(req, env, r.1.store, None, names).reply.articles
  {
    var r := Post(server, req, env, remote);
    var slug := r.0.reply.slug;
    var after := r.1.store;
    assert slug == Sanitize(req.payload.body.slug.value);
    SlugPathChars(slug);
    assert ArticlePath(slug) in after;
    assert ArticlePath(slug) != ArticlesDir;
    assert !DirIsFile(after);
    ListedIffStored(after, names, slug);
  }

  /** A slug has neither a dot nor a slash, so its file is a plain entry of the articles directory. */
  lemma SlugPathChars(slug: string)
    requires AllSlugChars(slug)
    ensures '.' !in slug && '/' !in slug
  {
    assert forall i :: 0 <= i < |slug| ==> IsSlugChar(slug[i]);
  }
}
