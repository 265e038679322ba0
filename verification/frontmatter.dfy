/**
 The markdown document the publishing endpoint commits for an article: a
 front matter block of `key: value` lines between two `---` lines, a blank
 line, then the article body.

 Title and description have their double quotes backslash-escaped; the
 keywords are written as a JSON array; author and image are written inside
 quotes without any escaping. `ReadDocument` is the reading side: it takes
 the lines apart the way the writer lays them out, and `ReadRender` shows it
 recovers every field whenever the single-line fields hold no line break (an
 empty image string is falsy, is not written, and reads back as no image).
 */
module Frontmatter {
  import opened Options
  import opened Strings

  // ---------------------------------------------------------------------------
  // `value.replace(/"/g, '\\"')`
  // ---------------------------------------------------------------------------

  /** Puts a backslash before every double quote; nothing else changes. */
  function EscapeQuotes(s: string): (r: string)
    ensures |r| == |s| + Count('"', s)
    ensures forall c :: c in r ==> c in s || c == '\\'
  {
    if s == [] then []
    else
      var rest := EscapeQuotes(s[1..]);
      assert forall c :: c in s[1..] ==> c in s;
      (if s[0] == '"' then ['\\', '"'] else [s[0]]) + rest
  }

  /** Turns every backslash-quote pair back into a quote. */
  function UnescapeQuotes(s: string): string
    decreases |s|
  {
    if |s| >= 2 && s[0] == '\\' && s[1] == '"' then ['"'] + UnescapeQuotes(s[2..])
    else if s == [] then []
    else [s[0]] + UnescapeQuotes(s[1..])
  }

  /** The escaped text never opens with a bare quote. */
  lemma EscapedHeadIsNotQuote(s: string)
    ensures EscapeQuotes(s) == [] || EscapeQuotes(s)[0] != '"'
  {
  }

  /** Escaping loses nothing: unescaping gives the original text back. */
  lemma {:induction false} UnescapeEscape(s: string)
    ensures UnescapeQuotes(EscapeQuotes(s)) == s
  {
    if s != [] {
      var rest := EscapeQuotes(s[1..]);
      UnescapeEscape(s[1..]);
      if s[0] == '"' {
        var e := ['\\', '"'] + rest;
        assert e[2..] == rest;
      } else {
        var e := [s[0]] + rest;
        EscapedHeadIsNotQuote(s[1..]);
        assert e[1..] == rest;
        assert !(|e| >= 2 && e[0] == '\\' && e[1] == '"');
      }
      assert s == [s[0]] + s[1..];
    }
  }

  // ---------------------------------------------------------------------------
  // `JSON.stringify` on strings and arrays of strings
  // ---------------------------------------------------------------------------

  const Backspace: char := '\U{0008}'
  const FormFeed: char := '\U{000C}'

  function HexDigit(n: nat): (c: char)
    requires n < 16
    ensures '0' <= c <= '9' || 'a' <= c <= 'f'
  {
    if n < 10 then (48 + n) as char else (97 + n - 10) as char
  }

  /** The value of a hexadecimal digit of either case. */
  function HexValue(c: char): (r: Option<nat>)
    ensures r.Some? ==> r.value < 16
  {
    if '0' <= c <= '9' then Some(c as int - 48)
    else if 'a' <= c <= 'f' then Some(c as int - 97 + 10)
    else if 'A' <= c <= 'F' then Some(c as int - 65 + 10)
    else None
  }

  lemma HexValueDigit(n: nat)
    requires n < 16
    ensures HexValue(HexDigit(n)) == Some(n)
  {
  }

  /**
   How `JSON.stringify` writes one character inside a string: the short
   escapes for quote, backslash, backspace, form feed, line feed, carriage
   return and tab; `\u00xx` with lower-case hex for the other control
   characters; every other character as itself.
   */
  function EscapeJsonChar(c: char): (r: string)
    ensures |r| >= 1
    ensures forall i :: 0 <= i < |r| ==> ' ' <= r[i]
    ensures r == [c] <==> (' ' <= c && c != '"' && c != '\\')
    ensures r != [c] ==> r[0] == '\\'
  {
    if c == '"' then ['\\', '"']
    else if c == '\\' then ['\\', '\\']
    else if c == Backspace then ['\\', 'b']
    else if c == FormFeed then ['\\', 'f']
    else if c == '\n' then ['\\', 'n']
    else if c == '\r' then ['\\', 'r']
    else if c == '\t' then ['\\', 't']
    else if c < ' ' then ['\\', 'u', '0', '0', HexDigit(c as int / 16), HexDigit(c as int % 16)]
    else [c]
  }

  function JsonEscape(s: string): (r: string)
    ensures forall i :: 0 <= i < |r| ==> ' ' <= r[i]
  {
    if s == [] then [] else EscapeJsonChar(s[0]) + JsonEscape(s[1..])
  }

  /** `JSON.stringify(s)` for a string `s`. */
  function JsonString(s: string): (r: string)
    ensures |r| >= 2 && r[0] == '"' && r[|r| - 1] == '"'
    ensures forall i :: 0 <= i < |r| ==> ' ' <= r[i]
  {
    ['"'] + JsonEscape(s) + ['"']
  }

  function JsonStrings(ks: seq<string>): (r: seq<string>)
    ensures |r| == |ks|
    ensures forall i :: 0 <= i < |ks| ==> r[i] == JsonString(ks[i])
  {
    seq(|ks|, i requires 0 <= i < |ks| => JsonString(ks[i]))
  }

  /** `JSON.stringify(ks)` for an array of strings: no spaces, comma separated. */
  function JsonArray(ks: seq<string>): (r: string)
    ensures '\n' !in r
  {
    var body := Join(JsonStrings(ks), ',');
    forall c | c in body
      ensures ' ' <= c
    {
      JoinChars(JsonStrings(ks), ',', c);
    }
    ['['] + body + [']']
  }

  // ---- the reading side of the JSON encoding

  /**
   The escape sequence at the head of `s`, which starts with a backslash:
   the character it stands for and how many characters it takes. A `\u`
   escape naming a surrogate is refused (surrogate pairs are not read).
   */
  function ReadEscape(s: string): (r: Option<(char, nat)>)
    ensures r.Some? ==> 2 <= r.value.1 <= |s|
  {
    if |s| < 2 then None
    else if s[1] == '"' then Some(('"', 2))
    else if s[1] == '\\' then Some(('\\', 2))
    else if s[1] == '/' then Some(('/', 2))
    else if s[1] == 'b' then Some((Backspace, 2))
    else if s[1] == 'f' then Some((FormFeed, 2))
    else if s[1] == 'n' then Some(('\n', 2))
    else if s[1] == 'r' then Some(('\r', 2))
    else if s[1] == 't' then Some(('\t', 2))
    else if s[1] == 'u' && |s| >= 6 then
      match (HexValue(s[2]), HexValue(s[3]), HexValue(s[4]), HexValue(s[5]))
      case (Some(a), Some(b), Some(c), Some(d)) =>
        var code := ((a * 16 + b) * 16 + c) * 16 + d;
        if 0xD800 <= code < 0xE000 then None else Some((code as char, 6))
      case _ => None
    else None
  }

  /** Every escape `EscapeJsonChar` writes reads back as its character. */
  lemma ReadEscapeJsonChar(c: char, t: string)
    requires EscapeJsonChar(c) != [c]
    ensures ReadEscape(EscapeJsonChar(c) + t) == Some((c, |EscapeJsonChar(c)|))
  {
    var e := EscapeJsonChar(c);
    var s := e + t;
    if c < ' ' && c != Backspace && c != FormFeed && c != '\n' && c != '\r' && c != '\t' {
      var hi, lo := c as int / 16, c as int % 16;
      assert s[1] == 'u' && s[2] == '0' && s[3] == '0' && s[4] == HexDigit(hi) && s[5] == HexDigit(lo);
      HexValueDigit(0);
      HexValueDigit(hi);
      HexValueDigit(lo);
      assert ((0 * 16 + 0) * 16 + hi) * 16 + lo == c as int;
    }
  }

  /**
   Reads the inside of a JSON string up to its closing quote: the text it
   stands for and what follows the quote. Raw control characters and unknown
   escapes are refused.
   */
  function ReadStringBody(s: string): (r: Option<(string, string)>)
    ensures r.Some? ==> |r.value.1| < |s|
    decreases |s|
  {
    if s == [] then None
    else if s[0] == '"' then Some(([], s[1..]))
    else if s[0] == '\\' then
      match ReadEscape(s)
      case None => None
      case Some((c, n)) =>
        match ReadStringBody(s[n..])
        case None => None
        case Some((d, rest)) => Some(([c] + d, rest))
    else if s[0] < ' ' then None
    else
      match ReadStringBody(s[1..])
      case None => None
      case Some((d, rest)) => Some(([s[0]] + d, rest))
  }

  /** The inside of `JSON.stringify(x)` reads back as `x`, stopping at its closing quote. */
  lemma {:induction false} ReadJsonEscape(x: string, t: string)
    ensures ReadStringBody(JsonEscape(x) + ['"'] + t) == Some((x, t))
  {
    var s := JsonEscape(x) + ['"'] + t;
    if x == [] {
      assert s == ['"'] + t;
      assert s[1..] == t;
    } else {
      var e := EscapeJsonChar(x[0]);
      var u := JsonEscape(x[1..]) + ['"'] + t;
      assert s == e + u;
      ReadJsonEscape(x[1..], t);
      if e == [x[0]] {
        assert s[1..] == u;
      } else {
        ReadEscapeJsonChar(x[0], u);
        assert s[|e|..] == u;
      }
      assert [x[0]] + x[1..] == x;
    }
  }

  /** Reads the items of a JSON array of strings; `s` starts just inside the first item's opening quote. */
  function ReadItems(s: string): (r: Option<seq<string>>)
    decreases |s|
  {
    match ReadStringBody(s)
    case None => None
    case Some((x, rest)) =>
      if rest == [']'] then Some([x])
      else if |rest| >= 2 && rest[0] == ',' && rest[1] == '"' then
        match ReadItems(rest[2..])
        case None => None
        case Some(xs) => Some([x] + xs)
      else None
  }

  /** Reads a JSON array of strings written without spaces. */
  function ReadArray(s: string): Option<seq<string>> {
    if s == ['[', ']'] then Some([])
    else if |s| >= 2 && s[0] == '[' && s[1] == '"' then ReadItems(s[2..])
    else None
  }

  /** One more item in front: an escaped string, its closing quote and a comma, then the rest of the array. */
  lemma ReadItemsCons(x: string, tailText: string, xs: seq<string>)
    requires |tailText| >= 1 && tailText[0] == '"'
    requires ReadItems(tailText[1..]) == Some(xs)
    ensures ReadItems(JsonEscape(x) + ['"'] + ([','] + tailText)) == Some([x] + xs)
  {
    var t := [','] + tailText;
    ReadJsonEscape(x, t);
    assert t[0] == ',' && t[1] == '"' && t != [']'];
    assert t[2..] == tailText[1..];
  }

  /** The last item: an escaped string, its closing quote and the closing bracket. */
  lemma ReadItemsLast(x: string)
    ensures ReadItems(JsonEscape(x) + ['"'] + [']']) == Some([x])
  {
    ReadJsonEscape(x, [']']);
  }

  /** The array text after `[` for one item: its escaped body between quotes, then `]`. */
  lemma ItemsTextOne(ks: seq<string>)
    requires |ks| == 1
    ensures (Join(JsonStrings(ks), ',') + [']'])[1..] == JsonEscape(ks[0]) + ['"'] + [']']
  {
  }

  /** The array text of several items is the first item's JSON string, a comma, then the rest's text. */
  lemma ItemsTextSplit(ks: seq<string>)
    requires |ks| >= 2
    ensures Join(JsonStrings(ks), ',') + [']'] == JsonString(ks[0]) + [','] + (Join(JsonStrings(ks[1..]), ',') + [']'])
  {
    assert JsonStrings(ks)[1..] == JsonStrings(ks[1..]);
  }

  /** The array text of one or more items starts with a quote. */
  lemma ItemsTextQuote(ks: seq<string>)
    requires |ks| >= 1
    ensures (Join(JsonStrings(ks), ',') + [']'])[0] == '"'
  {
    if |ks| > 1 {
      assert Join(JsonStrings(ks), ',') == JsonString(ks[0]) + [','] + Join(JsonStrings(ks)[1..], ',');
    }
  }

  /** The array text after `[` for several items: the first one's escaped body, its quote, a comma, then the rest's text. */
  lemma ItemsTextCons(ks: seq<string>)
    requires |ks| >= 2
    ensures var tailText := Join(JsonStrings(ks[1..]), ',') + [']'];
      && (Join(JsonStrings(ks), ',') + [']'])[1..] == JsonEscape(ks[0]) + ['"'] + ([','] + tailText)
      && |tailText| >= 1 && tailText[0] == '"'
  {
    ItemsTextSplit(ks);
    DropOpeningQuote(JsonEscape(ks[0]), Join(JsonStrings(ks[1..]), ',') + [']']);
    ItemsTextQuote(ks[1..]);
  }

  lemma DropOpeningQuote(e: string, tail: string)
    ensures ((['"'] + e + ['"']) + [','] + tail)[1..] == e + ['"'] + ([','] + tail)
  {
  }

  lemma {:induction false} ReadItemsJoin(ks: seq<string>)
    requires |ks| >= 1
    ensures ReadItems((Join(JsonStrings(ks), ',') + [']'])[1..]) == Some(ks)
    decreases |ks|
  {
    if |ks| == 1 {
      ItemsTextOne(ks);
      ReadItemsLast(ks[0]);
      assert [ks[0]] == ks;
    } else {
      ItemsTextCons(ks);
      ReadItemsJoin(ks[1..]);
      ReadItemsCons(ks[0], Join(JsonStrings(ks[1..]), ',') + [']'], ks[1..]);
      assert [ks[0]] + ks[1..] == ks;
    }
  }

  /** Reading `JSON.stringify(ks)` gives back `ks`. */
  lemma ReadJsonArray(ks: seq<string>)
    ensures ReadArray(JsonArray(ks)) == Some(ks)
  {
    var s := JsonArray(ks);
    if ks != [] {
      var text := Join(JsonStrings(ks), ',') + [']'];
      assert s == ['['] + text;
      ItemsTextQuote(ks);
      assert s != ['[', ']'] && s[0] == '[' && s[1] == '"';
      assert s[2..] == text[1..];
      ReadItemsJoin(ks);
    }
  }

  // ---------------------------------------------------------------------------
  // The document
  // ---------------------------------------------------------------------------

  /** The values the endpoint writes, after its defaults are applied. */
  datatype Fields = Fields(
    title: string,
    description: string,
    date: string,
    slug: string,
    keywords: seq<string>,
    author: string,
    image: Option<string>,
    published: bool,
    content: string)

  const Fence: string := "---"

  /** `key: "value"`. */
  function Quoted(key: string, value: string): string {
    key + [':', ' ', '"'] + value + ['"']
  }

  /** The value of a `key: "value"` line. */
  function Unquote(key: string, line: string): (r: Option<string>)
    ensures r.Some? ==> Quoted(key, r.value) == line
  {
    var n := |key| + 3;
    if |line| >= n + 1 && line[..n] == key + [':', ' ', '"'] && line[|line| - 1] == '"' then
      assert line == line[..n] + line[n..|line| - 1] + ['"'];
      Some(line[n..|line| - 1])
    else None
  }

  lemma UnquoteQuoted(key: string, value: string)
    ensures Unquote(key, Quoted(key, value)) == Some(value)
  {
    var line := Quoted(key, value);
    var n := |key| + 3;
    assert line[..n] == key + [':', ' ', '"'];
    assert line[n..|line| - 1] == value;
  }

  /** `${image ? `image: "${image}"` : ''}`: an empty line when there is no image. */
  function ImageLine(image: Option<string>): string {
    if image.Some? && image.value != [] then Quoted("image", image.value) else []
  }

  /** The image the document records: an empty image string is falsy and is written as none. */
  function WrittenImage(image: Option<string>): (r: Option<string>)
    ensures r.None? <==> image.None? || image.value == []
    ensures r.Some? ==> r == image
    ensures ImageLine(r) == ImageLine(image)
  {
    if image.Some? && image.value == [] then None else image
  }

  /** The fields as the document records them. */
  function WrittenFields(f: Fields): (g: Fields)
    ensures g.image == WrittenImage(f.image)
    ensures g.(image := f.image) == f
  {
    f.(image := WrittenImage(f.image))
  }

  function PublishedLine(published: bool): string {
    "published: " + (if published then "true" else "false")
  }

  const KeywordsPrefix: string := "keywords: "

  /** The lines of the front matter block, the blank line after it included. */
  function HeaderLines(f: Fields): (lines: seq<string>)
    ensures |lines| == 11
  {
    [ Fence,
      Quoted("title", EscapeQuotes(f.title)),
      Quoted("description", EscapeQuotes(f.description)),
      Quoted("date", f.date),
      Quoted("slug", f.slug),
      KeywordsPrefix + JsonArray(f.keywords),
      Quoted("author", f.author),
      ImageLine(f.image),
      PublishedLine(f.published),
      Fence,
      [] ]
  }

  /** The committed markdown text: the header lines and then the body, joined by line feeds. */
  function Render(f: Fields): string {
    Join(HeaderLines(f) + [f.content], '\n')
  }

  function ReadKeywords(line: string): Option<seq<string>> {
    if |line| >= |KeywordsPrefix| && line[..|KeywordsPrefix|] == KeywordsPrefix
    then ReadArray(line[|KeywordsPrefix|..]) else None
  }

  /** An empty line is no image. */
  function ReadImage(line: string): Option<Option<string>> {
    if line == [] then Some(None)
    else match Unquote("image", line)
      case Some(v) => Some(Some(v))
      case None => None
  }

  function ReadPublished(line: string): Option<bool> {
    if line == PublishedLine(true) then Some(true)
    else if line == PublishedLine(false) then Some(false)
    else None
  }

  /** Reads the eleven header lines; the body is left empty. */
  function ReadHeader(h: seq<string>): Option<Fields>
    requires |h| == 11
  {
    if h[0] != Fence || h[9] != Fence || h[10] != [] then None
    else
      var title := Unquote("title", h[1]);
      var description := Unquote("description", h[2]);
      var date := Unquote("date", h[3]);
      var slug := Unquote("slug", h[4]);
      var keywords := ReadKeywords(h[5]);
      var author := Unquote("author", h[6]);
      var image := ReadImage(h[7]);
      var published := ReadPublished(h[8]);
      if title.None? || description.None? || date.None? || slug.None? || keywords.None?
         || author.None? || image.None? || published.None?
      then None
      else Some(Fields(UnescapeQuotes(title.value), UnescapeQuotes(description.value), date.value,
                       slug.value, keywords.value, author.value, image.value, published.value, []))
  }

  /** Reads a document laid out as `Render` lays it out: the header, then everything after it as the body. */
  function ReadDocument(doc: string): Option<Fields> {
    var lines := Split(doc, '\n');
    if |lines| < 12 then None
    else match ReadHeader(lines[..11])
      case None => None
      case Some(f) => Some(f.(content := Join(lines[11..], '\n')))
  }

  /** The fields that must stay on one line. */
  predicate SingleLine(f: Fields) {
    && '\n' !in f.title && '\n' !in f.description && '\n' !in f.date
    && '\n' !in f.slug && '\n' !in f.author
    && (f.image.Some? ==> '\n' !in f.image.value)
  }

  lemma QuotedSingleLine(key: string, value: string)
    requires '\n' !in key && '\n' !in value
    ensures '\n' !in Quoted(key, value)
  {
  }

  /** The title and description lines hold no line break. */
  lemma EscapedLinesSingle(f: Fields)
    requires SingleLine(f)
    ensures '\n' !in HeaderLines(f)[1] && '\n' !in HeaderLines(f)[2]
  {
    var h := HeaderLines(f);
    assert h[1] == Quoted("title", EscapeQuotes(f.title));
    assert h[2] == Quoted("description", EscapeQuotes(f.description));
    QuotedSingleLine("title", EscapeQuotes(f.title));
    QuotedSingleLine("description", EscapeQuotes(f.description));
  }

  /** Nor do the date, slug and author lines. */
  lemma PlainLinesSingle(f: Fields)
    requires SingleLine(f)
    ensures '\n' !in HeaderLines(f)[3] && '\n' !in HeaderLines(f)[4] && '\n' !in HeaderLines(f)[6]
  {
    var h := HeaderLines(f);
    assert h[3] == Quoted("date", f.date);
    assert h[4] == Quoted("slug", f.slug);
    assert h[6] == Quoted("author", f.author);
    QuotedSingleLine("date", f.date);
    QuotedSingleLine("slug", f.slug);
    QuotedSingleLine("author", f.author);
  }

  /** Nor do the fences, the keywords, the image and the published line. */
  lemma OtherLinesSingle(f: Fields)
    requires SingleLine(f)
    ensures '\n' !in HeaderLines(f)[0] && '\n' !in HeaderLines(f)[5] && '\n' !in HeaderLines(f)[7]
    ensures '\n' !in HeaderLines(f)[8] && '\n' !in HeaderLines(f)[9] && '\n' !in HeaderLines(f)[10]
  {
    var h := HeaderLines(f);
    assert h[5] == KeywordsPrefix + JsonArray(f.keywords);
    assert h[7] == ImageLine(f.image);
    assert h[8] == PublishedLine(f.published);
    if f.image.Some? && f.image.value != [] {
      QuotedSingleLine("image", f.image.value);
    }
  }

  lemma HeaderLinesSingle(f: Fields)
    requires SingleLine(f)
    ensures forall k :: 0 <= k < |HeaderLines(f)| ==> '\n' !in HeaderLines(f)[k]
  {
    EscapedLinesSingle(f);
    PlainLinesSingle(f);
    OtherLinesSingle(f);
  }

  /** The document's lines are the header lines followed by the body's own lines. */
  lemma {:induction false} RenderLines(f: Fields)
    requires SingleLine(f)
    ensures Split(Render(f), '\n') == HeaderLines(f) + Split(f.content, '\n')
  {
    var h := HeaderLines(f);
    JoinSnoc(h, f.content, '\n');
    SplitConcat(Join(h, '\n'), f.content, '\n');
    HeaderLinesSingle(f);
    SplitJoin(h, '\n');
  }

  lemma ReadKeywordsLine(ks: seq<string>)
    ensures ReadKeywords(KeywordsPrefix + JsonArray(ks)) == Some(ks)
  {
    var line := KeywordsPrefix + JsonArray(ks);
    assert line[..|KeywordsPrefix|] == KeywordsPrefix;
    assert line[|KeywordsPrefix|..] == JsonArray(ks);
    ReadJsonArray(ks);
  }

  /** The image line reads back as the image, an empty one as none. */
  lemma ReadImageLine(image: Option<string>)
    ensures ReadImage(ImageLine(image)) == Some(WrittenImage(image))
    ensures image.Some? && image.value == [] ==> ReadImage(ImageLine(image)) == Some(None)
  {
    if image.Some? && image.value != [] {
      UnquoteQuoted("image", image.value);
    }
  }

  lemma ReadPublishedLine(p: bool)
    ensures ReadPublished(PublishedLine(p)) == Some(p)
  {
    assert PublishedLine(true) != PublishedLine(false) by {
      assert PublishedLine(true)[11] != PublishedLine(false)[11];
    }
  }

  /** The header reader assembles the fields from what each line reads back as. */
  lemma ReadHeaderOf(h: seq<string>, f: Fields)
    requires |h| == 11 && h[0] == Fence && h[9] == Fence && h[10] == []
    requires Unquote("title", h[1]) == Some(EscapeQuotes(f.title))
    requires Unquote("description", h[2]) == Some(EscapeQuotes(f.description))
    requires Unquote("date", h[3]) == Some(f.date)
    requires Unquote("slug", h[4]) == Some(f.slug)
    requires ReadKeywords(h[5]) == Some(f.keywords)
    requires Unquote("author", h[6]) == Some(f.author)
    requires ReadImage(h[7]) == Some(f.image)
    requires ReadPublished(h[8]) == Some(f.published)
    ensures ReadHeader(h) == Some(f.(content := []))
  {
    UnescapeEscape(f.title);
    UnescapeEscape(f.description);
  }

  /** The title line reads back as the escaped title. */
  lemma TitleLineRead(f: Fields)
    ensures Unquote("title", HeaderLines(f)[1]) == Some(EscapeQuotes(f.title))
  {
    assert HeaderLines(f)[1] == Quoted("title", EscapeQuotes(f.title));
    UnquoteQuoted("title", EscapeQuotes(f.title));
  }

  /** The description line reads back as the escaped description. */
  lemma DescriptionLineRead(f: Fields)
    ensures Unquote("description", HeaderLines(f)[2]) == Some(EscapeQuotes(f.description))
  {
    assert HeaderLines(f)[2] == Quoted("description", EscapeQuotes(f.description));
    UnquoteQuoted("description", EscapeQuotes(f.description));
  }

  /** The date, slug and author lines read back as written. */
  lemma PlainLinesRead(f: Fields)
    ensures Unquote("date", HeaderLines(f)[3]) == Some(f.date)
    ensures Unquote("slug", HeaderLines(f)[4]) == Some(f.slug)
    ensures Unquote("author", HeaderLines(f)[6]) == Some(f.author)
  {
    var h := HeaderLines(f);
    assert h[3] == Quoted("date", f.date);
    assert h[4] == Quoted("slug", f.slug);
    assert h[6] == Quoted("author", f.author);
    UnquoteQuoted("date", f.date);
    UnquoteQuoted("slug", f.slug);
    UnquoteQuoted("author", f.author);
  }

  /** The fences, the keywords, the image and the published line read back too. */
  lemma OtherHeaderLinesRead(f: Fields)
    ensures HeaderLines(f)[0] == Fence && HeaderLines(f)[9] == Fence && HeaderLines(f)[10] == []
    ensures ReadKeywords(HeaderLines(f)[5]) == Some(f.keywords)
    ensures ReadImage(HeaderLines(f)[7]) == Some(WrittenImage(f.image))
    ensures ReadPublished(HeaderLines(f)[8]) == Some(f.published)
  {
    var h := HeaderLines(f);
    assert h[5] == KeywordsPrefix + JsonArray(f.keywords);
    assert h[7] == ImageLine(f.image);
    assert h[8] == PublishedLine(f.published);
    ReadKeywordsLine(f.keywords);
    ReadImageLine(f.image);
    ReadPublishedLine(f.published);
  }

  /** Every header line reads back as the field it was written from; an empty image as none. */
  lemma ReadHeaderLines(f: Fields)
    ensures ReadHeader(HeaderLines(f)) == Some(WrittenFields(f).(content := []))
  {
    TitleLineRead(f);
    DescriptionLineRead(f);
    PlainLinesRead(f);
    OtherHeaderLinesRead(f);
    ReadHeaderOf(HeaderLines(f), WrittenFields(f));
  }

  /** Reading the rendered document gives back every field, an empty image as none. */
  lemma {:induction false} ReadRender(f: Fields)
    requires SingleLine(f)
    ensures ReadDocument(Render(f)) == Some(WrittenFields(f))
    ensures f.image.None? || f.image.value != [] ==> ReadDocument(Render(f)) == Some(f)
  {
    var lines := Split(Render(f), '\n');
    RenderLines(f);
    assert lines[..11] == HeaderLines(f);
    assert lines[11..] == Split(f.content, '\n');
    JoinSplit(f.content, '\n');
    ReadHeaderLines(f);
  }
}
