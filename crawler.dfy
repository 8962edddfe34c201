/**
 * The body of `crawl()`: for each catalog block with a URL, fetch the site
 * and push one record onto `entries`, enriched with the page's title and meta
 * tags when the fetch succeeds and the bare catalog entry when it fails.
 *
 * The download of the catalog itself, the per-site fetch and the HTML parsing
 * are not modelled; what they deliver is given: the catalog as text and, for
 * each URL, a `FetchResult`.
 */
module Crawler {
  import opened Wrappers
  import opened JsText
  import opened BlockSplit
  import opened CatalogParser

  /**
   * What fetching and parsing a site yields: `Failed` when the fetch or the
   * body read throws, otherwise the text of the `title` elements and the
   * `content` attributes of the `description` and `keywords` meta tags.
   */
  datatype FetchResult =
    | Failed
    | Fetched(titleText: string, metaDescription: Option<string>, metaKeywords: Option<string>)

  /** One element of the output array; an absent field is `undefined` and is not written. */
  datatype Record = Record(name: Option<string>, url: string, desc: Option<string>,
                           title: Option<string>, keywords: Option<string>)

  /** The `{name, url, desc}` part of a record, read back as a catalog entry. */
  function EntryPart(r: Record): CatalogEntry {
    CatalogEntry(r.name, Some(r.url), r.desc)
  }

  /** JavaScript `a || b` on values that are strings or `undefined`: `a` unless it is falsy. */
  function Or(a: Option<string>, b: Option<string>): (r: Option<string>)
    ensures r == a || r == b
    ensures Truthy(a) ==> r == a
    ensures Truthy(r) <==> Truthy(a) || Truthy(b)
  {
    if Truthy(a) then a else b
  }

  /** `s?.trim()`: `undefined` stays `undefined`; a string is trimmed, and becomes `""` exactly when it is all whitespace. */
  function TrimOpt(s: Option<string>): (r: Option<string>)
    ensures r.Some? <==> s.Some?
    ensures r.Some? ==> IsTrimmed(r.value) && (r.value == "" <==> AllSpace(s.value))
  {
    match s
    case None => None
    case Some(v) => TrimEmptyIffAllSpace(v); Some(Trim(v))
  }

  /** `$("title").text().trim() || entry.name`. */
  function PageTitle(titleText: string, name: Option<string>): (title: Option<string>)
    ensures !AllSpace(titleText) ==> title == Some(Trim(titleText))
    ensures AllSpace(titleText) ==> title == name
  {
    TrimEmptyIffAllSpace(titleText);
    Or(Some(Trim(titleText)), name)
  }

  /** `$('meta[name="description"]').attr("content")?.trim() || entry.desc`. */
  function PageDescription(meta: Option<string>, desc: Option<string>): (r: Option<string>)
    ensures meta.Some? && !AllSpace(meta.value) ==> r == Some(Trim(meta.value))
    ensures meta.None? || AllSpace(meta.value) ==> r == desc
  {
    Or(TrimOpt(meta), desc)
  }

  /** `$('meta[name="keywords"]').attr("content")?.trim() || ""`. */
  function PageKeywords(meta: Option<string>): (r: string)
    ensures IsTrimmed(r)
    ensures meta.Some? && !AllSpace(meta.value) ==> r == Trim(meta.value)
    ensures meta.None? || AllSpace(meta.value) ==> r == ""
  {
    Or(TrimOpt(meta), Some("")).value
  }

  /**
   * The record pushed for a catalog entry with a URL, given the outcome of
   * fetching it. A failed fetch pushes the parsed entry unchanged; a
   * successful one keeps name and URL and always adds keywords.
   */
  function RecordFor(entry: CatalogEntry, outcome: FetchResult): (r: Record)
    requires HasUrl(entry)
    ensures r.name == entry.name && Some(r.url) == entry.url && r.url != ""
    ensures outcome.Failed? <==> r.keywords.None?
    ensures outcome.Failed? ==> EntryPart(r) == entry && r.title.None?
  {
    match outcome
    case Failed => Record(entry.name, entry.url.value, entry.desc, None, None)
    case Fetched(titleText, metaDescription, metaKeywords) =>
      Record(entry.name, entry.url.value, PageDescription(metaDescription, entry.desc),
             PageTitle(titleText, entry.name), Some(PageKeywords(metaKeywords)))
  }

  /**
   * The records `crawl()` pushes for a list of parsed entries: nothing for an
   * entry whose URL is missing or empty, one record for every other entry.
   */
  function Index(entries: seq<CatalogEntry>, fetch: string -> FetchResult): (records: seq<Record>)
    ensures |records| <= |entries|
  {
    if |entries| == 0 then []
    else
      var e := entries[|entries| - 1];
      Index(entries[..|entries| - 1], fetch) + (if HasUrl(e) then [RecordFor(e, fetch(e.url.value))] else [])
  }

  /** The records of a whole catalog text. */
  function IndexOf(text: string, fetch: string -> FetchResult): seq<Record> {
    Index(Parsed(SplitBlocks(Trim(text))), fetch)
  }

  /**
   * `crawl()` between the download of the catalog and the write of the
   * index: trim the catalog text, split it at blank lines and crawl the
   * blocks.
   */
  method Crawl(text: string, fetch: string -> FetchResult) returns (entries: seq<Record>)
    ensures entries == IndexOf(text, fetch)
  {
    var blocks := SplitBlocks(Trim(text));
    entries := CrawlBlocks(blocks, fetch);
  }

  /**
   * The loop over the blocks: parse each one, skip it when it has no URL,
   * fetch the site and push a record, whether the fetch succeeded or not.
   */
  method CrawlBlocks(blocks: seq<string>, fetch: string -> FetchResult) returns (entries: seq<Record>)
    ensures entries == Index(Parsed(blocks), fetch)
  {
    entries := [];
    for i := 0 to |blocks|
      invariant entries == Index(Parsed(blocks[..i]), fetch)
    {
      ParsedStep(blocks, i);
      IndexStep(Parsed(blocks[..i]), EntryOf(blocks[i]), fetch);
      var entry := ParseBlock(blocks[i]);
      if !HasUrl(entry) {
        continue;
      }
      var record := Visit(entry, fetch);
      entries := entries + [record];
    }
    assert blocks[..|blocks|] == blocks;
  }

  /**
   * The `try`/`catch` around one site: on success the record built from the
   * page, on failure the parsed entry itself.
   */
  method Visit(entry: CatalogEntry, fetch: string -> FetchResult) returns (record: Record)
    requires HasUrl(entry)
    ensures record == RecordFor(entry, fetch(entry.url.value))
  {
    var url := entry.url.value;
    match fetch(url) {
      case Failed =>
        record := Record(entry.name, url, entry.desc, None, None);
      case Fetched(titleText, metaDescription, metaKeywords) =>
        var title := PageTitle(titleText, entry.name);
        var desc := PageDescription(metaDescription, entry.desc);
        var keywords := PageKeywords(metaKeywords);
        record := Record(entry.name, url, desc, title, Some(keywords));
    }
  }

  /** One more entry adds at most its own record at the end. */
  lemma IndexStep(entries: seq<CatalogEntry>, e: CatalogEntry, fetch: string -> FetchResult)
    ensures Index(entries + [e], fetch) == Index(entries, fetch) + (if HasUrl(e) then [RecordFor(e, fetch(e.url.value))] else [])
  {
    assert (entries + [e])[..|entries|] == entries;
  }

  /** The output for two runs of entries is the output for each, concatenated: records keep catalog order. */
  lemma {:induction false} IndexAppend(a: seq<CatalogEntry>, b: seq<CatalogEntry>, fetch: string -> FetchResult)
    ensures Index(a + b, fetch) == Index(a, fetch) + Index(b, fetch)
    decreases |b|
  {
    if |b| == 0 {
      assert a + b == a;
    } else {
      var n := |b| - 1;
      assert (a + b)[..|a + b| - 1] == a + b[..n];
      assert (a + b)[|a + b| - 1] == b[n];
      IndexAppend(a, b[..n], fetch);
    }
  }

  /**
   * The output has one record per kept catalog entry, in catalog order:
   * record `k` is the one built for the `k`-th entry that has a URL.
   */
  lemma {:induction false} IndexFollowsCatalog(entries: seq<CatalogEntry>, fetch: string -> FetchResult)
    ensures |Index(entries, fetch)| == |KeepWithUrl(entries)|
    ensures forall k :: 0 <= k < |KeepWithUrl(entries)| ==>
              Index(entries, fetch)[k] == RecordFor(KeepWithUrl(entries)[k], fetch(KeepWithUrl(entries)[k].url.value))
  {
    if |entries| > 0 {
      IndexFollowsCatalog(entries[..|entries| - 1], fetch);
    }
  }

  /**
   * A crawl of a list of blocks emits one record per catalog entry, in
   * catalog order, whatever each fetch gives, and every record carries its
   * entry's non-empty, trimmed URL.
   */
  lemma CrawlFollowsCatalog(blocks: seq<string>, fetch: string -> FetchResult)
    ensures |Index(Parsed(blocks), fetch)| == |KeepWithUrl(Parsed(blocks))|
    ensures forall k :: 0 <= k < |KeepWithUrl(Parsed(blocks))| ==>
              var e := KeepWithUrl(Parsed(blocks))[k];
              Index(Parsed(blocks), fetch)[k] == RecordFor(e, fetch(e.url.value))
    ensures forall r :: r in Index(Parsed(blocks), fetch) ==> r.url != "" && IsTrimmed(r.url)
  {
    var es := Parsed(blocks);
    var cat := KeepWithUrl(es);
    IndexFollowsCatalog(es, fetch);
    CatalogUrlsTrimmed(blocks);
    var recs := Index(es, fetch);
    forall r | r in recs ensures r.url != "" && IsTrimmed(r.url) {
      var k :| 0 <= k < |recs| && recs[k] == r;
      assert cat[k] in cat;
    }
  }
}
