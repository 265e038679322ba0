/**
 The upsert and listing client for the remote repository that stores the
 articles.

 The remote store is a map from path to entry: a file with its content and
 version token (its sha), or a directory. The two remote calls are
 operations on that map. What the environment can do to them (refuse a read
 or a write for reasons of its own, choose the next sha) comes in as a
 `Remote` parameter.
 */
module ArticleStore {
  import opened Options
  import opened Strings

  const ArticlesDir: string := "content/articles"

  /** Where the article with this slug lives: `content/articles/<slug>.md`. */
  function ArticlePath(slug: string): (p: string)
    ensures StartsWith(p, ArticlesDir + "/") && EndsWith(p, ".md")
    ensures |p| == |ArticlesDir| + |slug| + 4
  {
    ArticlesDir + "/" + slug + ".md"
  }

  /** Distinct slugs are stored under distinct paths. */
  lemma ArticlePathInjective(a: string, b: string)
    requires ArticlePath(a) == ArticlePath(b)
    ensures a == b
  {
    var n := |ArticlesDir| + 1;
    assert |a| == |b|;
    assert a == ArticlePath(a)[n..n + |a|];
    assert b == ArticlePath(b)[n..n + |b|];
  }

  datatype Entry = File(content: string, sha: string) | Dir

  type Store = map<string, Entry>

  datatype RemoteError = RemoteError(status: int, message: string)

  const NotFoundStatus: int := 404
  const ConflictStatus: int := 409
  const UnprocessableStatus: int := 422

  /**
   What the environment does to one upsert: a failure it imposes on the read
   or on the write (authorisation, network, quota), and the sha the remote
   gives the written file.
   */
  datatype Remote = Remote(readFault: Option<RemoteError>, writeFault: Option<RemoteError>, newSha: string)

  /** No imposed failure. */
  function Healthy(newSha: string): Remote {
    Remote(None, None, newSha)
  }

  // ---------------------------------------------------------------------------
  // The two remote calls
  // ---------------------------------------------------------------------------

  /** What reading one path gives: a sha when the path is a file, none when it is a directory. */
  datatype ReadResult = Found(sha: Option<string>) | ReadFailed(err: RemoteError)

  /** `repos.getContent` on one path; a missing path fails with status 404. */
  function GetContent(store: Store, path: string, fault: Option<RemoteError>): (r: ReadResult)
    ensures fault.Some? ==> r == ReadFailed(fault.value)
    ensures fault.None? && path !in store ==> r.ReadFailed? && r.err.status == NotFoundStatus
    ensures fault.None? && path in store ==>
      r.Found? && (r.sha.Some? <==> store[path].File?)
    ensures r.Found? && r.sha.Some? ==> path in store && store[path].File? && r.sha.value == store[path].sha
  {
    if fault.Some? then ReadFailed(fault.value)
    else if path !in store then ReadFailed(RemoteError(NotFoundStatus, "Not Found"))
    else match store[path]
      case File(_, sha) => Found(Some(sha))
      case Dir => Found(None)
  }

  /** One `repos.createOrUpdateFileContents` call. */
  datatype WriteRequest = WriteRequest(path: string, commitMessage: string, content: string, sha: Option<string>)

  datatype WriteResult = Written(sha: string, store: Store) | WriteFailed(err: RemoteError)

  /**
   The remote's side of a write. With a sha the write succeeds only when the
   path holds a file with exactly that sha (optimistic concurrency); without
   one it succeeds only when the path is free. A successful write replaces
   that one path with the new content and sha.
   */
  function PutContent(store: Store, req: WriteRequest, fault: Option<RemoteError>, newSha: string): (r: WriteResult)
    ensures r.Written? ==> r.store == store[req.path := File(req.content, newSha)] && r.sha == newSha
    ensures r.Written? <==>
      && fault.None?
      && (match req.sha
          case Some(t) => req.path in store && store[req.path].File? && store[req.path].sha == t
          case None => req.path !in store)
  {
    if fault.Some? then
      WriteFailed(fault.value)
    else match req.sha
      case Some(t) =>
        if req.path in store && store[req.path].File? && store[req.path].sha == t then
          Written(newSha, store[req.path := File(req.content, newSha)])
        else
          WriteFailed(RemoteError(ConflictStatus, req.path + " does not match " + t))
      case None =>
        if req.path !in store then
          Written(newSha, store[req.path := File(req.content, newSha)])
        else
          WriteFailed(RemoteError(UnprocessableStatus, "\"sha\" wasn't supplied."))
  }

  // ---------------------------------------------------------------------------
  // createOrUpdateArticle
  // ---------------------------------------------------------------------------

  const UpdatedMessage: string := "Article updated"
  const CreatedMessage: string := "Article created"
  const FallbackMessage: string := "Failed to create/update article"

  /** `{ success, message, sha? }` as the endpoint receives it. */
  datatype UpsertResult = UpsertResult(success: bool, message: string, sha: Option<string>)

  /** The result together with what the upsert did: the write it issued, if any, and the store after it. */
  datatype Upsert = Upsert(result: UpsertResult, write: Option<WriteRequest>, store: Store)

  /** `error.message || 'Failed to create/update article'`. */
  function ErrorText(e: RemoteError): (m: string)
    ensures m != []
    ensures e.message != [] ==> m == e.message
  {
    if e.message == [] then FallbackMessage else e.message
  }

  /**
   The token the upsert takes from its read: the sha when one was read and it
   is not empty (an empty string is falsy in the source's test); a 404 means
   no token; any other read failure is propagated.
   */
  datatype ReadOutcome = Token(sha: Option<string>) | Abort(err: RemoteError)

  function ReadPhase(store: Store, slug: string, remote: Remote): (r: ReadOutcome)
    ensures r.Abort? <==>
      GetContent(store, ArticlePath(slug), remote.readFault).ReadFailed? &&
      GetContent(store, ArticlePath(slug), remote.readFault).err.status != NotFoundStatus
    ensures r.Token? && r.sha.Some? ==>
      var path := ArticlePath(slug);
      path in store && store[path].File? && store[path].sha == r.sha.value && r.sha.value != []
  {
    match GetContent(store, ArticlePath(slug), remote.readFault)
    case ReadFailed(e) => if e.status == NotFoundStatus then Token(None) else Abort(e)
    case Found(sha) => if sha.Some? && sha.value != [] then Token(sha) else Token(None)
  }

  /** The write the upsert issues for a given token. */
  function WriteFor(slug: string, content: string, token: Option<string>): (w: WriteRequest)
    ensures w.path == ArticlePath(slug) && w.content == content && w.sha == token
  {
    WriteRequest(
      ArticlePath(slug),
      if token.Some? then "Update article: " + slug else "Add article: " + slug,
      content,
      token)
  }

  /**
   The write half of the upsert: the remote's answer decides the result. An
   accepted write reports its sha and stores the content; a refused one
   reports the remote's message and changes nothing.
   */
  function WritePhase(store: Store, slug: string, content: string, token: Option<string>, remote: Remote): (u: Upsert)
    ensures u.write == Some(WriteFor(slug, content, token))
    ensures var w := PutContent(store, WriteFor(slug, content, token), remote.writeFault, remote.newSha);
      && (u.result.success <==> w.Written?)
      && (w.Written? ==> u.store == w.store && u.result.sha == Some(w.sha))
      && (w.WriteFailed? ==> u.store == store && u.result.message == ErrorText(w.err))
  {
    var req := WriteFor(slug, content, token);
    match PutContent(store, req, remote.writeFault, remote.newSha)
    case WriteFailed(e) =>
      Upsert(UpsertResult(false, ErrorText(e), None), Some(req), store)
    case Written(sha, store') =>
      var message := if token.Some? then UpdatedMessage else CreatedMessage;
      Upsert(UpsertResult(true, message, Some(sha)), Some(req), store')
  }

  /**
   `createOrUpdateArticle`: read the article's path, then write it back with
   the token that was read, or without one to create it.
   */
  function CreateOrUpdateArticle(store: Store, slug: string, content: string, remote: Remote): (u: Upsert)
    // only the article's own path can change
    ensures u.store - {ArticlePath(slug)} == store - {ArticlePath(slug)}
    // a read failure other than 404 ends the upsert: no write, nothing changes
    ensures ReadPhase(store, slug, remote).Abort? ==>
      && u.write.None? && u.store == store
      && u.result == UpsertResult(false, ErrorText(ReadPhase(store, slug, remote).err), None)
    // otherwise exactly one write, to the article's path, carrying the token iff one was read
    ensures ReadPhase(store, slug, remote).Token? ==>
      && u.write.Some?
      && u.write.value.path == ArticlePath(slug)
      && u.write.value.content == content
      && u.write.value.sha == ReadPhase(store, slug, remote).sha
    ensures u.write.Some? ==>
      u.write.value.commitMessage ==
        (if u.write.value.sha.Some? then "Update article: " else "Add article: ") + slug
    // success: the store holds the new content under the sha of the write response
    ensures u.result.success ==>
      && u.write.Some?
      && u.result.message == (if u.write.value.sha.Some? then UpdatedMessage else CreatedMessage)
      && u.result.sha == Some(remote.newSha)
      && u.store == store[ArticlePath(slug) := File(content, remote.newSha)]
    // failure: nothing changes and the remote's message is passed on
    ensures !u.result.success ==> u.store == store && u.result.sha.None? && u.result.message != []
    // after a read, the outcome is the remote's answer to the write
    ensures ReadPhase(store, slug, remote).Token? ==>
      var w := PutContent(store, WriteFor(slug, content, ReadPhase(store, slug, remote).sha), remote.writeFault, remote.newSha);
      && (u.result.success <==> w.Written?)
      && (w.WriteFailed? ==> u.result.message == ErrorText(w.err))
  {
    match ReadPhase(store, slug, remote)
    case Abort(e) => Upsert(UpsertResult(false, ErrorText(e), None), None, store)
    case Token(sha) => WritePhase(store, slug, content, sha, remote)
  }

  /**
   A remote that refuses the write makes the upsert fail with the remote's
   message (or the fallback when it has none), and nothing is stored.
   */
  lemma RefusedWriteFails(store: Store, slug: string, content: string, remote: Remote)
    requires ReadPhase(store, slug, remote).Token? && remote.writeFault.Some?
    ensures var u := CreateOrUpdateArticle(store, slug, content, remote);
      && !u.result.success
      && u.result.message == ErrorText(remote.writeFault.value)
      && u.store == store
  {
  }

  // ---------------------------------------------------------------------------
  // Properties relating several upserts
  // ---------------------------------------------------------------------------

  /** With a healthy remote, a free path is created and a file with a non-empty sha is updated. */
  lemma {:induction false} HealthyUpsert(store: Store, slug: string, content: string, newSha: string)
    requires ArticlePath(slug) !in store || (store[ArticlePath(slug)].File? && store[ArticlePath(slug)].sha != [])
    ensures var u := CreateOrUpdateArticle(store, slug, content, Healthy(newSha));
      && u.result.success
      && u.result.message == (if ArticlePath(slug) in store then UpdatedMessage else CreatedMessage)
      && u.store[ArticlePath(slug)] == File(content, newSha)
  {
    var path := ArticlePath(slug);
    var token := ReadPhase(store, slug, Healthy(newSha));
    if path in store {
      assert token == Token(Some(store[path].sha));
      assert store[path] == File(store[path].content, store[path].sha);
    } else {
      assert token == Token(None);
    }
  }

  /**
   Publishing the same slug twice: the second upsert reports an update and
   the store holds the second content (last writer wins).
   */
  lemma RepublishUpdates(store: Store, slug: string, first: string, second: string, sha1: string, sha2: string)
    requires ArticlePath(slug) !in store || (store[ArticlePath(slug)].File? && store[ArticlePath(slug)].sha != [])
    requires sha1 != []
    ensures var u1 := CreateOrUpdateArticle(store, slug, first, Healthy(sha1));
      var u2 := CreateOrUpdateArticle(u1.store, slug, second, Healthy(sha2));
      && u2.result == UpsertResult(true, UpdatedMessage, Some(sha2))
      && u2.store[ArticlePath(slug)] == File(second, sha2)
  {
    HealthyUpsert(store, slug, first, sha1);
    var u1 := CreateOrUpdateArticle(store, slug, first, Healthy(sha1));
    HealthyUpsert(u1.store, slug, second, sha2);
  }

  /**
   Two concurrent publishes: the read happens on one state of the store and
   the write on a later one. If the file's sha changed in between, the write
   is refused and nothing is overwritten.
   */
  lemma StaleTokenIsRefused(before: Store, after: Store, slug: string, content: string, remote: Remote)
    requires remote.writeFault.None?
    requires ReadPhase(before, slug, remote).Token?
    requires ReadPhase(before, slug, remote).sha.Some?
    requires ArticlePath(slug) in after && after[ArticlePath(slug)].File?
    requires after[ArticlePath(slug)].sha != ReadPhase(before, slug, remote).sha.value
    ensures var u := WritePhase(after, slug, content, ReadPhase(before, slug, remote).sha, remote);
      && !u.result.success
      && u.store == after
  {
  }

  // ---------------------------------------------------------------------------
  // listArticles
  // ---------------------------------------------------------------------------

  /** What reading the articles directory gives. */
  datatype Listing = DirListing(names: seq<string>) | FileObject | ListFailed(err: RemoteError)

  predicate IsMarkdownName(name: string) {
    EndsWith(name, ".md")
  }

  /** `name.replace('.md', '')`: removes the FIRST occurrence of `.md`. */
  function StripMd(name: string): string {
    ReplaceFirst(name, ".md", "")
  }

  /** The indices of the markdown names, in increasing order. */
  function MarkdownIndices(names: seq<string>): (ix: seq<nat>)
    ensures forall k :: 0 <= k < |ix| ==> ix[k] < |names| && IsMarkdownName(names[ix[k]])
    ensures forall k, l :: 0 <= k < l < |ix| ==> ix[k] < ix[l]
    ensures forall j :: 0 <= j < |names| && IsMarkdownName(names[j]) ==> j in ix
  {
    MarkdownFrom(names, 0)
  }

  /** The indices at or after `i` of the markdown names, in increasing order. */
  function MarkdownFrom(names: seq<string>, i: nat): (ix: seq<nat>)
    requires i <= |names|
    ensures forall k :: 0 <= k < |ix| ==> i <= ix[k] < |names| && IsMarkdownName(names[ix[k]])
    ensures forall k, l :: 0 <= k < l < |ix| ==> ix[k] < ix[l]
    ensures forall j :: i <= j < |names| && IsMarkdownName(names[j]) ==> j in ix
    decreases |names| - i
  {
    if i == |names| then []
    else
      var rest := MarkdownFrom(names, i + 1);
      if IsMarkdownName(names[i]) then [i] + rest else rest
  }

  /**
   `listArticles`: on a directory listing, every markdown name with its
   first `.md` removed, in directory order; on anything else, an empty list,
   so that a failure looks like an empty directory.
   */
  function ListArticles(listing: Listing): (slugs: seq<string>)
    ensures !listing.DirListing? ==> slugs == []
    ensures listing.DirListing? ==>
      var ix := MarkdownIndices(listing.names);
      && |slugs| == |ix|
      && forall k :: 0 <= k < |ix| ==> slugs[k] == StripMd(listing.names[ix[k]])
  {
    match listing
    case DirListing(names) =>
      var ix := MarkdownIndices(names);
      seq(|ix|, k requires 0 <= k < |ix| => StripMd(names[ix[k]]))
    case _ => []
  }

  /** A dot-free stem followed by `.md` lists as the stem: its only `.md` is the suffix. */
  lemma StripMdSuffix(stem: string)
    requires '.' !in stem
    ensures StripMd(stem + ".md") == stem
  {
    var name := stem + ".md";
    assert OccursAt(name, ".md", |stem|) by {
      assert name[|stem|..|stem| + 3] == ".md";
    }
    forall j: nat | j < |stem|
      ensures !OccursAt(name, ".md", j)
    {
      assert name[j] == stem[j];
    }
    assert IndexOf(name, ".md") == Some(|stem|);
    assert name[..|stem|] == stem;
  }

  /** A markdown name whose listed form has no dot is that form followed by `.md`. */
  lemma DotFreeListedName(n: string)
    requires IsMarkdownName(n)
    requires '.' !in StripMd(n)
    ensures n == StripMd(n) + ".md"
  {
    EarlyMdLeavesDot(n);
    assert StripMd(n) == n[..|n| - 3];
  }

  /** When the first `.md` of a markdown name is not its suffix, the listed form keeps a dot. */
  lemma EarlyMdLeavesDot(n: string)
    requires IsMarkdownName(n)
    ensures IndexOf(n, ".md").Some?
    ensures IndexOf(n, ".md").value < |n| - 3 ==> '.' in StripMd(n)
    ensures IndexOf(n, ".md").value <= |n| - 3
  {
    assert OccursAt(n, ".md", |n| - 3);
    var i := IndexOf(n, ".md").value;
    if i < |n| - 3 {
      NoOverlappingMd(n, i);
      assert StripMd(n)[|n| - 6] == n[|n| - 3];
    }
  }

  /** Two occurrences of `.md` cannot overlap. */
  lemma NoOverlappingMd(n: string, i: nat)
    requires OccursAt(n, ".md", i) && IsMarkdownName(n) && i < |n| - 3
    ensures i + 3 <= |n| - 3
  {
    assert n[i + 1] == 'm' && n[i + 2] == 'd';
    assert n[|n| - 3] == '.';
  }

  /** Only the first `.md` goes: `a.md.md` lists as `a.md`. */
  lemma StripMdRemovesFirstOnly()
    ensures StripMd("a.md.md") == "a.md"
  {
    var name := "a.md.md";
    assert OccursAt(name, ".md", 1);
    assert !OccursAt(name, ".md", 0) by { assert name[0..3][0] == 'a'; }
    assert IndexOf(name, ".md") == Some(1);
    assert name[..1] + "" + name[4..] == "a.md";
  }

  // ---------------------------------------------------------------------------
  // Reading the articles directory
  // ---------------------------------------------------------------------------

  /** The path of the entry `name` directly inside the articles directory. */
  function EntryPath(name: string): string {
    ArticlesDir + "/" + name
  }

  /** An article's file is the entry `<slug>.md` of the articles directory. */
  lemma ArticlePathIsEntry(slug: string)
    ensures ArticlePath(slug) == EntryPath(slug + ".md")
  {
    assert ArticlesDir + "/" + slug + ".md" == ArticlesDir + "/" + (slug + ".md");
  }

  /** A name a directory entry can have: not empty and without `/`. */
  predicate IsEntryName(name: string) {
    name != [] && '/' !in name
  }

  /**
   `names` is what the remote reports for the articles directory of `store`:
   the names of the entries directly inside it, in the remote's order.
   */
  ghost predicate ListsDirectory(store: Store, names: seq<string>) {
    && (forall i :: 0 <= i < |names| ==> IsEntryName(names[i]) && EntryPath(names[i]) in store)
    && (forall name :: IsEntryName(name) && EntryPath(name) in store ==> name in names)
  }

  /** The articles directory's own path holds a file. */
  predicate DirIsFile(store: Store) {
    ArticlesDir in store && store[ArticlesDir].File?
  }

  /**
   `repos.getContent` on the articles directory: the imposed fault if there
   is one, the file object when the path is a file, 404 when nothing is
   there, and otherwise the names of its entries.
   */
  function ReadArticlesDir(store: Store, fault: Option<RemoteError>, names: seq<string>): (l: Listing)
    requires ListsDirectory(store, names)
    ensures fault.Some? ==> l == ListFailed(fault.value)
    ensures fault.None? && DirIsFile(store) ==> l == FileObject
    ensures fault.None? && !DirIsFile(store) && names != [] ==> l == DirListing(names)
    ensures fault.None? && !DirIsFile(store) && names == [] ==> ListArticles(l) == []
  {
    if fault.Some? then ListFailed(fault.value)
    else if DirIsFile(store) then FileObject
    else if ArticlesDir !in store && names == [] then ListFailed(RemoteError(NotFoundStatus, "Not Found"))
    else DirListing(names)
  }

  /**
   A fault-free read of the articles directory lists exactly the stored
   articles: a slug without `.` or `/` is listed iff its file is stored.
   */
  lemma ListedIffStored(store: Store, names: seq<string>, slug: string)
    requires ListsDirectory(store, names) && !DirIsFile(store)
    requires '.' !in slug && '/' !in slug
    ensures slug in ListArticles(ReadArticlesDir(store, None, names)) <==> ArticlePath(slug) in store
  {
    var listing := ReadArticlesDir(store, None, names);
    var name := slug + ".md";
    ArticlePathIsEntry(slug);
    StripMdSuffix(slug);
    if ArticlePath(slug) in store {
      ListedWhenStored(store, names, slug);
    }
    if slug in ListArticles(listing) {
      assert listing == DirListing(names);
      var ix := MarkdownIndices(names);
      var k :| 0 <= k < |ix| && ListArticles(listing)[k] == slug;
      var n := names[ix[k]];
      DotFreeListedName(n);
      assert n == name;
    }
  }

  /** The stored-to-listed half of `ListedIffStored`. */
  lemma ListedWhenStored(store: Store, names: seq<string>, slug: string)
    requires ListsDirectory(store, names) && !DirIsFile(store)
    requires '.' !in slug && '/' !in slug
    requires EntryPath(slug + ".md") in store
    requires StripMd(slug + ".md") == slug
    ensures slug in ListArticles(ReadArticlesDir(store, None, names))
  {
    var name := slug + ".md";
    MarkdownEntryName(slug);
    assert name in names;
    var j :| 0 <= j < |names| && names[j] == name;
    ListedAt(names, j);
  }

  /** `<stem>.md` is a markdown entry name when the stem has no `/`. */
  lemma MarkdownEntryName(stem: string)
    requires '/' !in stem
    ensures IsEntryName(stem + ".md") && IsMarkdownName(stem + ".md")
  {
    var name := stem + ".md";
    assert forall j :: 0 <= j < |stem| ==> name[j] == stem[j];
    assert name[|name| - 3..] == ".md";
  }

  /** Every markdown name of a directory listing is listed, stripped. */
  lemma ListedAt(names: seq<string>, j: int)
    requires 0 <= j < |names| && IsMarkdownName(names[j])
    ensures StripMd(names[j]) in ListArticles(DirListing(names))
  {
    var ix := MarkdownIndices(names);
    assert j in ix;
    var k :| 0 <= k < |ix| && ix[k] == j;
    assert ListArticles(DirListing(names))[k] == StripMd(names[j]);
  }
}
