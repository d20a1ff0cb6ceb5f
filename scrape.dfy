/**
  `scrapeWikipedia` (index.ts lines 29-93): the article title taken from the URL, the
  section list taken from the page's headlines, and the cleaned article text.
  The page fetch is an input: its status, its HTML, the raw texts the headline matcher
  captured and where the main-content matcher found its capture group.
 */
module Scrape {
  import opened Text
  import opened JsValue
  import opened Errors
  import opened Cleanup

  /* ---------------------------------------------------------------------------
     Article title: url.match(/\/wiki\/(.+)$/) and decodeURIComponent   (lines 33-38)
     --------------------------------------------------------------------------- */

  const WikiPath: string := "/wiki/"

  /** The title pattern matches at index `i`: `/wiki/` there, then at least one character,
      none of them a line terminator, up to the end of the URL. */
  predicate PathMatchAt(url: string, i: int) {
    OccursAt(url, WikiPath, i) && i + |WikiPath| < |url| &&
    forall k :: i + |WikiPath| <= k < |url| ==> !IsLineTerminator(url[k])
  }

  /** The leftmost index at or after `from` where the title pattern matches. */
  function FindPath(url: string, from: nat): (r: Option<nat>)
    decreases |url| - from
    ensures r.Some? ==> from <= r.value && PathMatchAt(url, r.value)
    ensures r.Some? ==> forall j :: from <= j < r.value ==> !PathMatchAt(url, j)
    ensures r.None? ==> forall j :: from <= j ==> !PathMatchAt(url, j)
  {
    if from + |WikiPath| >= |url| then None
    else if PathMatchAt(url, from) then Some(from)
    else FindPath(url, from + 1)
  }

  /** The capture group of the title pattern: everything after the `/wiki/` of the leftmost
      match, or `None` when the pattern does not match anywhere. */
  function ArticlePath(url: string): (r: Option<string>)
    ensures r.None? <==> forall j :: !PathMatchAt(url, j)
    ensures r.Some? ==> r.value != [] && forall k :: 0 <= k < |r.value| ==> !IsLineTerminator(r.value[k])
    ensures r.Some? ==> exists i :: PathMatchAt(url, i) && (forall j :: 0 <= j < i ==> !PathMatchAt(url, j)) &&
                                    r.value == url[i + |WikiPath|..]
  {
    match FindPath(url, 0)
    case None => None
    case Some(i) =>
      var p := url[i + |WikiPath|..];
      assert forall k :: 0 <= k < |p| ==> p[k] == url[i + |WikiPath| + k];
      Some(p)
  }

  /** Lines 33-38. `decode` stands for `decodeURIComponent`, which throws a URIError
      (`None`) on a malformed escape. */
  function ArticleTitle(url: string, decode: string -> Option<string>): (r: Result<string, Failure>)
    ensures r == Err(InvalidUrlFormat) <==> ArticlePath(url).None?
    ensures r == Err(ThrownByRuntime) <==>
      ArticlePath(url).Some? && decode(ReplaceChar(ArticlePath(url).value, '_', ' ')).None?
    ensures r.Ok? ==> Some(r.value) == decode(ReplaceChar(ArticlePath(url).value, '_', ' '))
    ensures ArticlePath(url).Some? && decode(ReplaceChar(ArticlePath(url).value, '_', ' ')).Some? ==>
      r == Ok(decode(ReplaceChar(ArticlePath(url).value, '_', ' ')).value)
  {
    match ArticlePath(url)
    case None => Err(InvalidUrlFormat)
    case Some(p) =>
      match decode(ReplaceChar(p, '_', ' '))
      case None => Err(ThrownByRuntime)
      case Some(t) => Ok(t)
  }

  /** The base every English Wikipedia article URL starts with. */
  const ArticleBase: string := "https://en.wikipedia.org/wiki/"

  /** The host part of `ArticleBase` holds no `/wiki/`, so with anything appended the
      title pattern can only match at the base's own `/wiki/`. */
  lemma NoPathInHost(e: string)
    ensures forall j :: 0 <= j < 24 ==> !OccursAt(ArticleBase + e, WikiPath, j)
  {
    var s := ArticleBase + e;
    forall j | 0 <= j < 24 ensures !OccursAt(s, WikiPath, j) {
      assert s[j] == ArticleBase[j] && s[j + 1] == ArticleBase[j + 1];
      assert ArticleBase[j] != '/' || ArticleBase[j + 1] != 'w';
      if j + 6 <= |s| {
        assert s[j..j + 6][0] == s[j] && s[j..j + 6][1] == s[j + 1];
      }
    }
  }

  /** An article URL has as its title path exactly what follows the base, when that is
      non-empty and free of line terminators. */
  lemma ArticlePathOfArticleUrl(e: string)
    requires e != [] && forall k :: 0 <= k < |e| ==> !IsLineTerminator(e[k])
    ensures ArticlePath(ArticleBase + e) == Some(e)
  {
    var s := ArticleBase + e;
    NoPathInHost(e);
    assert s[24..30] == WikiPath;
    assert s[30..] == e;
    assert forall k :: 30 <= k < |s| ==> s[k] == e[k - 30];
    assert PathMatchAt(s, 24);
  }

  /** A URL ending right after `/wiki/` passes the handler's check for
      "wikipedia.org/wiki/" but has no title: scraping fails with "Invalid Wikipedia URL
      format". */
  lemma BareArticleBaseHasNoTitle(decode: string -> Option<string>)
    ensures Contains(ArticleBase, "wikipedia.org/wiki/")
    ensures ArticleTitle(ArticleBase, decode) == Err(InvalidUrlFormat)
  {
    assert OccursAt(ArticleBase, "wikipedia.org/wiki/", 11);
    NoPathInHost([]);
    assert ArticleBase + [] == ArticleBase;
    forall j ensures !PathMatchAt(ArticleBase, j) {
      if 24 <= j && OccursAt(ArticleBase, WikiPath, j) {
        assert j + |WikiPath| >= |ArticleBase|;
      }
    }
  }

  /* ---------------------------------------------------------------------------
     Sections   (lines 62-68)
     --------------------------------------------------------------------------- */

  /** The headlines line 68 filters out. */
  const StopList: seq<string> := ["See also", "References", "External links", "Notes", "Further reading"]

  /** The filter of line 68: a non-empty string not in the stop list. */
  predicate Kept(t: string) {
    t != [] && t !in StopList
  }

  /** The `.map` of lines 64-67: every headline text trimmed. Each headline is the text
      line 65 captures from its match. The `""` that line 66 gives when line 65 finds no
      text (line 65 is case-sensitive, line 62 is not) is not modelled. */
  function TrimAll(headlines: seq<string>): (r: seq<string>)
    ensures |r| == |headlines|
    ensures forall k :: 0 <= k < |r| ==> r[k] == Trim(headlines[k])
  {
    Map(Trim, headlines)
  }

  /** `xs.map(f)`. */
  function Map(f: string -> string, xs: seq<string>): (r: seq<string>)
    ensures |r| == |xs|
    ensures forall k :: 0 <= k < |r| ==> r[k] == f(xs[k])
  {
    seq(|xs|, k requires 0 <= k < |xs| => f(xs[k]))
  }

  lemma MapAppend(f: string -> string, a: seq<string>, b: seq<string>)
    ensures Map(f, a + b) == Map(f, a) + Map(f, b)
  {
    var l, r := Map(f, a + b), Map(f, a) + Map(f, b);
    forall k | 0 <= k < |a + b| ensures l[k] == r[k] {
      if k < |a| {
        assert (a + b)[k] == a[k];
      } else {
        assert (a + b)[k] == b[k - |a|];
      }
    }
  }

  /** The `.filter` of line 68. */
  function KeepSections(ts: seq<string>): (r: seq<string>)
    ensures |r| <= |ts|
    ensures forall k :: 0 <= k < |r| ==> Kept(r[k]) && r[k] in ts
  {
    if ts == [] then [] else (if Kept(ts[0]) then [ts[0]] else []) + KeepSections(ts[1..])
  }

  /** Lines 63-68: every section is a trimmed headline that passes the filter. */
  function Sections(headlines: seq<string>): (r: seq<string>)
    ensures |r| <= |headlines|
    ensures forall k :: 0 <= k < |r| ==> Kept(r[k]) && r[k] in TrimAll(headlines)
  {
    KeepSections(TrimAll(headlines))
  }

  /** Every section has no whitespace at either end. */
  lemma SectionsTrimmed(headlines: seq<string>, k: nat)
    requires k < |Sections(headlines)|
    ensures IsTrimmed(Sections(headlines)[k])
  {
    var ts := TrimAll(headlines);
    var j :| 0 <= j < |ts| && ts[j] == Sections(headlines)[k];
  }

  lemma TrimAllAppend(a: seq<string>, b: seq<string>)
    ensures TrimAll(a + b) == TrimAll(a) + TrimAll(b)
  {
    MapAppend(Trim, a, b);
  }

  lemma {:induction false} KeepSectionsAppend(a: seq<string>, b: seq<string>)
    ensures KeepSections(a + b) == KeepSections(a) + KeepSections(b)
  {
    if a == [] {
      assert a + b == b;
    } else {
      assert (a + b)[0] == a[0];
      assert (a + b)[1..] == a[1..] + b;
      KeepSectionsAppend(a[1..], b);
    }
  }

  /** The section list of a concatenation is the concatenation of the section lists:
      the filter keeps document order and never merges or removes repeated headlines. */
  lemma SectionsAppend(a: seq<string>, b: seq<string>)
    ensures Sections(a + b) == Sections(a) + Sections(b)
  {
    TrimAllAppend(a, b);
    KeepSectionsAppend(TrimAll(a), TrimAll(b));
  }

  lemma {:induction false} KeepSectionsComplete(ts: seq<string>, j: nat)
    requires j < |ts| && Kept(ts[j])
    ensures ts[j] in KeepSections(ts)
  {
    if j > 0 {
      KeepSectionsComplete(ts[1..], j - 1);
    }
  }

  /** Every headline whose trimmed text passes the filter is in the section list. */
  lemma SectionsComplete(headlines: seq<string>, j: nat)
    requires j < |headlines| && Kept(Trim(headlines[j]))
    ensures Trim(headlines[j]) in Sections(headlines)
  {
    KeepSectionsComplete(TrimAll(headlines), j);
  }

  lemma {:induction false} KeepSectionsOfKept(ts: seq<string>)
    requires forall j :: 0 <= j < |ts| ==> Kept(ts[j])
    ensures KeepSections(ts) == ts
  {
    if ts != [] {
      KeepSectionsOfKept(ts[1..]);
    }
  }

  /** Headlines that are already trimmed and pass the filter come out unchanged, duplicates
      included. */
  lemma SectionsOfCleanHeadlines(headlines: seq<string>)
    requires forall j :: 0 <= j < |headlines| ==> IsTrimmed(headlines[j]) && Kept(headlines[j])
    ensures Sections(headlines) == headlines
  {
    TrimAllOfTrimmed(headlines);
    KeepSectionsOfKept(headlines);
  }

  lemma TrimAllOfTrimmed(headlines: seq<string>)
    requires forall j :: 0 <= j < |headlines| ==> IsTrimmed(headlines[j])
    ensures TrimAll(headlines) == headlines
  {
    var ts := TrimAll(headlines);
    forall j | 0 <= j < |headlines| ensures ts[j] == headlines[j] {
      TrimOfTrimmed(headlines[j]);
    }
  }

  /** A stop-listed headline, padded or not, leaves nothing behind. */
  lemma StopListedHeadlineDropped(h: string)
    requires Trim(h) in StopList
    ensures Sections([h]) == []
  {
    assert TrimAll([h]) == [Trim(h)];
  }

  /* ---------------------------------------------------------------------------
     scrapeWikipedia   (lines 29-93)
     --------------------------------------------------------------------------- */

  /** What the fetch of the article page and the two unmodelled matchers produce:
      the response status, the HTML, the headline texts (what line 65 captures from each
      whole match of the headline matcher of line 62), and where the main-content matcher (line 71) found its capture group in the
      block-stripped document, if it matched. */
  datatype Page = Page(status: nat, html: string, headlines: seq<string>, mainContent: Option<Span>)

  /** The matcher's capture lies inside the document it ran over. */
  predicate WellFormedPage(page: Page) {
    SpanWithin(page.mainContent, RemoveNonContentBlocks(page.html))
  }

  datatype Scraped = Scraped(title: string, content: string, sections: seq<string>)

  /** The document text lines 55-74 hand to the cleanup of lines 77-82. */
  function MainText(page: Page): (r: string)
    requires WellFormedPage(page)
    ensures IsSegmentOf(r, RemoveNonContentBlocks(page.html))
  {
    SelectMainContent(RemoveNonContentBlocks(page.html), page.mainContent)
  }

  /** Lines 29-93. The failures come in the source's order: no title path, a title that
      does not decode, then a non-2xx page. On success the title comes from the URL, the
      sections from the headlines, and the content is the cleaned main text: tag-free,
      whitespace-normal and at most 15003 characters long. */
  method ScrapeWikipedia(url: string, decode: string -> Option<string>, page: Page) returns (r: Result<Scraped, Failure>)
    requires WellFormedPage(page)
    ensures ArticleTitle(url, decode).Err? ==> r == Err(ArticleTitle(url, decode).error)
    ensures ArticleTitle(url, decode).Ok? && !IsOkStatus(page.status) ==> r == Err(FetchFailed(page.status))
    ensures ArticleTitle(url, decode).Ok? && IsOkStatus(page.status) ==> r.Ok?
    ensures r.Ok? ==> r.value.title == ArticleTitle(url, decode).value
    ensures r.Ok? ==> r.value.sections == Sections(page.headlines)
    ensures r.Ok? ==> r.value.content == CleanText(MainText(page))
    ensures r.Ok? ==> NoTag(r.value.content) && WhitespaceNormal(r.value.content) && |r.value.content| <= MaxLength + |Ellipsis|
  {
    var path := ArticlePath(url);
    if path.None? {
      return Err(InvalidUrlFormat);
    }
    var title := decode(ReplaceChar(path.value, '_', ' '));
    if title.None? {
      return Err(ThrownByRuntime);
    }
    if !IsOkStatus(page.status) {
      return Err(FetchFailed(page.status));
    }
    var content := RemoveNonContentBlocks(page.html);
    var sections := Sections(page.headlines);
    content := SelectMainContent(content, page.mainContent);
    var main := content;
    content := StripTags(content);
    content := RemoveCitations(content);
    content := RemoveEntities(content);
    content := NormalizeWhitespace(content);
    if |content| > MaxLength {
      content := content[..MaxLength] + Ellipsis;
    }
    assert content == CleanText(main);
    CleanTextShape(main);
    return Ok(Scraped(title.value, content, sections));
  }
}
