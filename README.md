# Zep crawler: catalog parsing and index assembly in Dafny

This project models the core of `crawl()` in the Zep crawler (`crawler.js`).
`crawl()` takes the text of the site catalog, a hand-edited file of blocks
separated by blank lines, each block holding `Name:`, `URL:` and
`Description:` lines. It runs these steps:

1. It trims the text and splits it into blocks with `/\n\s*\n/`.
2. It reads each block line by line into an entry object. A later line with
   the same label overwrites an earlier one.
3. It skips every entry whose URL is missing or empty.
4. It fetches every remaining site. It pushes one record per site onto the
   output array:
   - On success, the record holds the page's trimmed title, meta description
     and meta keywords. Each falls back to the catalog name, the catalog
     description or `""`.
   - On failure, the record is the parsed entry unchanged.

The network is not modelled. The model takes the catalog text as a string.
It takes the outcome of fetching and parsing each site as a function from
URL to `FetchResult`: either `Failed`, or the title text and the two meta
`content` attributes as the HTML parser would report them.

Modules:

- `Wrappers`: `Option`.
- `JsText`: the JavaScript string operations the crawler uses: `trim()`,
  `startsWith`, `replace` with a string pattern, and `split("\n")`.
  Whitespace is the ECMAScript WhiteSpace and LineTerminator set.
- `BlockSplit`: `split(/\n\s*\n/)` as the ECMAScript split algorithm runs it.
  A sticky match is tried at every position. The greedy `\s*` backs off to
  the last newline of the whitespace run.
- `CatalogParser`: the inner loop as a method (`ParseBlock`), proved against
  the specification function `EntryOf`. It also holds the URL filter
  `if (!entry.url) continue` (`KeepWithUrl`).
- `Crawler`:
  - The fallbacks for title, description and keywords, as pure functions.
  - The `try`/`catch` around one site, as the method `Visit`.
  - The outer loop, as the method `CrawlBlocks`, proved against the
    specification function `Index`.
  - `Crawl`, which trims and splits the text and runs `CrawlBlocks`.

Where the code and the design description disagree, the model follows the
code:

- A block with a URL but no `Name:` line is kept, with its name undefined.
  Only a block without a non-empty URL is skipped.
- A site whose fetch fails is not skipped. The parsed entry itself is pushed
  onto the output (`crawler.js:44-47`).
- Only blank lines separate blocks. There is no other block marker.

## Model

| member | source | states |
|---|---|---|
| JsText.Trim | crawler.js:14 | `trim()` yields a string with no whitespace at either end, no longer than its input |
| JsText.TrimSlice | crawler.js:14 | the input is whitespace, then the trimmed string, then whitespace: only surrounding whitespace is removed |
| JsText.TrimEmptyIffAllSpace | crawler.js:33-35 | `trim()` gives `""` exactly when the input is all whitespace (what the `\|\|` fallbacks test) |
| JsText.TrimAround | crawler.js:20-22 | whitespace around a non-empty trimmed core is exactly what `trim()` removes |
| JsText.TrimTrimmed | crawler.js:20-22 | a string with no surrounding whitespace is left unchanged, so trimming is idempotent |
| JsText.IndexOfFrom | crawler.js:20-22 | the search finds the leftmost occurrence at or after the start position, or reports that there is none |
| JsText.ReplaceFirst | crawler.js:20-22 | a string pattern replaces only its first occurrence; on a line that starts with the label, the result is the rest of the line |
| JsText.ReplaceFirstLeftmost | crawler.js:20-22 | wherever the leftmost occurrence of the pattern lies, exactly that occurrence is replaced and the rest of the string is kept |
| JsText.SplitLines | crawler.js:19 | `split("\n")` gives at least one line, no line contains a newline, and joining the lines with newlines gives the block back |
| JsText.SplitJoinLines | crawler.js:19 | conversely, lines without newlines, joined and split again, come back unchanged (empty lines included) |
| BlockSplit.MatchAt | crawler.js:14 | a match of `\n\s*\n` at a position spans at least two characters and ends inside the text (its meaning is `MatchAtMeaning`) |
| BlockSplit.MatchAtMeaning | crawler.js:14 | a match at a position exists exactly when a separator (newline, whitespace, newline) starts there; it ends at the last newline of the whitespace run |
| BlockSplit.SplitBlocks | crawler.js:14 | the split always yields at least one block, and `[""]` for the empty text (its meaning is in the next three rows and `SplitWovenBlocks`) |
| BlockSplit.SplitBlocksRoundTrip | crawler.js:14 | there is one more block than separators; weaving blocks and separators back together gives the text; every separator is newline, whitespace, newline |
| BlockSplit.SplitBlocksHaveNoBlankLine | crawler.js:14 | no block contains a separator, so every blank or whitespace-only line run splits blocks |
| BlockSplit.SplitTrimmedBlocksSolid | crawler.js:14 | splitting a non-empty trimmed text gives no all-whitespace block |
| BlockSplit.SplitWovenBlocks | crawler.js:14 | conversely, non-empty blocks with no whitespace at either end and no blank line inside (indented lines allowed), joined by any separators, split back into exactly those blocks and separators |
| CatalogParser.EntryOf | crawler.js:18-23 | every field of a parsed entry that is set is trimmed (which line sets it: `ParseBlock`, `LastValueAt`, `LastValueAbsent`) |
| CatalogParser.LastValue | crawler.js:19-22 | a field value that is set is trimmed |
| CatalogParser.ParseBlock | crawler.js:18-23 | the line loop yields `EntryOf(block)`: each field is the value of the last line carrying its label |
| CatalogParser.LastValueStep | crawler.js:20-22 | one more line replaces the field when it starts with the label and keeps it otherwise |
| CatalogParser.LastValueAt | crawler.js:19-22 | the later line wins: the value is the trimmed rest of the last line starting with the label |
| CatalogParser.LastValueAbsent | crawler.js:19-22 | a field stays undefined exactly when no line starts with its (case-sensitive) label |
| CatalogParser.LastValueFromLine | crawler.js:19-22 | a field that is set comes from the last line starting with its label |
| CatalogParser.LastValueTruthy | crawler.js:19-25 | a field is truthy exactly when the last line carrying its label has something besides whitespace after the label |
| CatalogParser.BlockHasUrl | crawler.js:19-25 | `HasUrl` (the test `!entry.url`) holds for a block exactly when its last `URL:` line has something besides whitespace after the label |
| CatalogParser.Parsed | crawler.js:17-23 | there is one parsed entry per block |
| CatalogParser.ParsedAt | crawler.js:17-23 | the entry at position `i` is the one parsed from block `i` |
| CatalogParser.ParsedStep | crawler.js:17-23 | parsing one more block appends its entry |
| CatalogParser.ParsedMembers | crawler.js:17-23 | an entry is among the parsed entries exactly when some block parses to it |
| CatalogParser.KeepWithUrl | crawler.js:25 | the kept entries are no more than the parsed ones, and each has a non-empty URL |
| CatalogParser.KeepMembers | crawler.js:25 | an entry is kept exactly when it is among the parsed entries and its URL is present and non-empty; name and description do not matter |
| CatalogParser.KeepsEveryEntry | crawler.js:25 | nothing is dropped exactly when every entry has a non-empty URL |
| CatalogParser.KeepAppend | crawler.js:17-25 | the filter keeps catalog order: the kept entries of two runs are those of each, concatenated |
| CatalogParser.CatalogKeepsEveryUrlBlock | crawler.js:17-25 | every block is kept exactly when every block parses to an entry with a non-empty URL |
| CatalogParser.CatalogBlocks | crawler.js:14 | the blocks of a catalog text weave back into the trimmed text; none holds a blank line; unless the text is blank, none is blank |
| CatalogParser.BlankCatalog | crawler.js:14-25 | an empty or all-whitespace catalog yields no entries |
| CatalogParser.ParsedUrlsTrimmed | crawler.js:21 | every parsed URL is trimmed |
| CatalogParser.CatalogUrlsTrimmed | crawler.js:21-25 | every kept URL is non-empty and trimmed |
| Crawler.Or | crawler.js:33-35 | JavaScript `a \|\| b` on strings: `a` when it is a non-empty string, else `b`; the result is truthy exactly when one of them is |
| Crawler.TrimOpt | crawler.js:34-35 | `?.trim()`: undefined stays undefined; a string becomes a trimmed string, empty exactly when it was all whitespace |
| Crawler.PageTitle | crawler.js:33 | the title is the trimmed title text, or the catalog name when that text is all whitespace |
| Crawler.PageDescription | crawler.js:34 | the description is the trimmed meta description, or the catalog description when the tag is missing or all whitespace |
| Crawler.PageKeywords | crawler.js:35 | the keywords are the trimmed meta keywords, or `""` when the tag is missing or all whitespace; always trimmed |
| Crawler.RecordFor | crawler.js:28-47 | a record keeps the entry's name and non-empty URL; it has keywords exactly when the fetch succeeded; after a failed fetch it is the parsed entry unchanged, with no title |
| Crawler.Visit | crawler.js:28-47 | the `try`/`catch` around one site yields `RecordFor` of the entry and its fetch outcome |
| Crawler.CrawlBlocks | crawler.js:17-48 | the loop over the blocks yields `Index` of the parsed blocks |
| Crawler.Crawl | crawler.js:14-48 | trimming, splitting and the loop yield `Index` of the parsed blocks of the trimmed text |
| Crawler.Index | crawler.js:17-48 | there are no more records than entries |
| Crawler.IndexStep | crawler.js:25-47 | one more entry adds its record at the end when it has a URL, and nothing otherwise |
| Crawler.IndexAppend | crawler.js:17-48 | records keep catalog order: the records of two runs of entries are those of each, concatenated |
| Crawler.IndexFollowsCatalog | crawler.js:17-48 | there is one record per kept entry; record `k` is built from kept entry `k` and that URL's fetch outcome, whether it failed or not |
| Crawler.CrawlFollowsCatalog | crawler.js:14-48 | for the blocks of a catalog: one record per catalog entry, in catalog order; every record's URL is non-empty and trimmed |

## Left out

- The network:
  - The download of the catalog (`crawler.js:11-12`) is replaced by the catalog text as a parameter.
  - The per-site fetch, its 10-second timeout and the body read (`crawler.js:29-30`) are replaced by the `fetch` function. A thrown error or a timeout is `Failed`. A non-2xx response does not throw and is `Fetched` with whatever page came back.
- The HTML parser (`crawler.js:31-35`): what it reports (the text of the `title` elements, and the `content` attribute of each meta tag or its absence) is part of `FetchResult`.
- Crawl: the outcome of a fetch is a function of the URL, so two blocks with the same URL get the same outcome; the real network may answer differently each time.
- Logging to the console, creating the `data` directory, and writing `data/index.json` with `JSON.stringify` (`crawler.js:10, 27, 45, 50-52, 55`). An undefined field is `None` in the model and is omitted from the JSON. The key order and the formatting of the file are not modelled.
- Asynchrony: the loop awaits each fetch before the next, so the model is sequential.
- Strings are sequences of Unicode scalar values, not of UTF-16 code units. Every whitespace character lies in the Basic Multilingual Plane, so trimming, `\s` and the label tests agree. String lengths differ from JavaScript's for characters outside that plane.
- BlockSplit.SplitWovenBlocks: the converse covers only blocks with no whitespace at either end. The split also yields blocks that end or start with spaces at a block boundary: for `a \n\n  b` the blocks are `a ` and `  b`, because `\s*` backs off to the last newline. Weaving such blocks back is covered by `SplitBlocksRoundTrip`, but splitting them again is not stated.
- `vote-collector.js` and `api/collect-vote.js` are not part of this model. They collect votes and do not take part in the crawl.
- Crawl memory, vote merging, site discovery, page excerpts and page classification do not appear in `crawler.js` and are not modelled.
