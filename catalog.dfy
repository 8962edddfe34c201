/**
 * The catalog parser inside `crawl()`: each block of the catalog text is read
 * line by line into an entry with an optional name, URL and description, and a
 * block whose URL is missing or empty is skipped.
 */
module CatalogParser {
  import opened Wrappers
  import opened JsText
  import opened BlockSplit

  /** The object the parser fills in; a field stays `undefined` (None) when no line sets it. */
  datatype CatalogEntry = CatalogEntry(name: Option<string>, url: Option<string>, desc: Option<string>)

  const NameLabel: string := "Name:"
  const UrlLabel: string := "URL:"
  const DescLabel: string := "Description:"

  /** The value a labelled line carries: the rest of the line after the label, trimmed. */
  function FieldValue(line: string, key: string): string
    requires StartsWith(line, key)
  {
    Trim(line[|key|..])
  }

  /** The value of the last line of `lines` that starts with `label`, searched from the end. */
  function LastValue(lines: seq<string>, key: string): (r: Option<string>)
    ensures r.Some? ==> IsTrimmed(r.value)
  {
    if |lines| == 0 then None
    else if StartsWith(lines[|lines| - 1], key) then Some(FieldValue(lines[|lines| - 1], key))
    else LastValue(lines[..|lines| - 1], key)
  }

  /** The entry a block describes: for each label, the value of its last line. */
  function EntryOf(block: string): (e: CatalogEntry)
    ensures e.name.Some? ==> IsTrimmed(e.name.value)
    ensures e.url.Some? ==> IsTrimmed(e.url.value)
    ensures e.desc.Some? ==> IsTrimmed(e.desc.value)
  {
    var lines := SplitLines(block);
    CatalogEntry(LastValue(lines, NameLabel), LastValue(lines, UrlLabel), LastValue(lines, DescLabel))
  }

  /** `!entry.url` is false: the URL is present and not the empty string. */
  predicate HasUrl(e: CatalogEntry) {
    Truthy(e.url)
  }

  /**
   * Reads one block into an entry: every line starting with a label
   * overwrites that field with the rest of the line, trimmed.
   */
  method ParseBlock(block: string) returns (entry: CatalogEntry)
    ensures entry == EntryOf(block)
  {
    var name: Option<string> := None;
    var url: Option<string> := None;
    var desc: Option<string> := None;
    var lines := SplitLines(block);
    for i := 0 to |lines|
      invariant name == LastValue(lines[..i], NameLabel)
      invariant url == LastValue(lines[..i], UrlLabel)
      invariant desc == LastValue(lines[..i], DescLabel)
    {
      var line := lines[i];
      LastValueStep(lines, i, NameLabel);
      LastValueStep(lines, i, UrlLabel);
      LastValueStep(lines, i, DescLabel);
      if StartsWith(line, NameLabel) {
        name := Some(Trim(ReplaceFirst(line, NameLabel, "")));
      }
      if StartsWith(line, UrlLabel) {
        url := Some(Trim(ReplaceFirst(line, UrlLabel, "")));
      }
      if StartsWith(line, DescLabel) {
        desc := Some(Trim(ReplaceFirst(line, DescLabel, "")));
      }
    }
    assert lines[..|lines|] == lines;
    entry := CatalogEntry(name, url, desc);
  }

  /** Reading one more line: a line with the key replaces the value, any other line keeps it. */
  lemma LastValueStep(lines: seq<string>, i: nat, key: string)
    requires i < |lines|
    ensures LastValue(lines[..i + 1], key)
            == if StartsWith(lines[i], key) then Some(Trim(ReplaceFirst(lines[i], key, "")))
               else LastValue(lines[..i], key)
  {
    assert lines[..i + 1][..i] == lines[..i];
    if StartsWith(lines[i], key) {
      assert ReplaceFirst(lines[i], key, "") == lines[i][|key|..];
    }
  }

  /** The later line wins: the value comes from the last line carrying the label. */
  lemma {:induction false} LastValueAt(lines: seq<string>, key: string, j: nat)
    requires j < |lines| && StartsWith(lines[j], key)
    requires forall k :: j < k < |lines| ==> !StartsWith(lines[k], key)
    ensures LastValue(lines, key) == Some(FieldValue(lines[j], key))
  {
    if j < |lines| - 1 {
      var init := lines[..|lines| - 1];
      assert init[j] == lines[j];
      LastValueAt(init, key, j);
    }
  }

  /** A field is left unset exactly when no line starts with its label. */
  lemma {:induction false} LastValueAbsent(lines: seq<string>, key: string)
    ensures LastValue(lines, key).None? <==> forall k :: 0 <= k < |lines| ==> !StartsWith(lines[k], key)
  {
    if |lines| > 0 {
      var init := lines[..|lines| - 1];
      LastValueAbsent(init, key);
      assert forall k :: 0 <= k < |init| ==> init[k] == lines[k];
    }
  }

  /** Line `j` is the last of `lines` that starts with `key`. */
  predicate LastLabelled(lines: seq<string>, key: string, j: int) {
    0 <= j < |lines| && StartsWith(lines[j], key) && forall k :: j < k < |lines| ==> !StartsWith(lines[k], key)
  }

  /** A value that is set comes from the last line carrying the label. */
  lemma {:induction false} LastValueFromLine(lines: seq<string>, key: string)
    requires LastValue(lines, key).Some?
    ensures exists j :: LastLabelled(lines, key, j) && LastValue(lines, key).value == FieldValue(lines[j], key)
  {
    var n := |lines| - 1;
    if StartsWith(lines[n], key) {
      assert LastLabelled(lines, key, n);
    } else {
      var init := lines[..n];
      LastValueFromLine(init, key);
      var j :| LastLabelled(init, key, j) && LastValue(init, key).value == FieldValue(init[j], key);
      assert init[j] == lines[j];
      assert forall k :: j < k < n ==> init[k] == lines[k];
      assert LastLabelled(lines, key, j);
    }
  }

  /**
   * Some line carries the label, and the last such line has something besides
   * whitespace after it.
   */
  ghost predicate HasValueLine(lines: seq<string>, key: string) {
    exists j :: LastLabelled(lines, key, j) && !AllSpace(lines[j][|key|..])
  }

  /** A field is truthy exactly when its last labelled line has a value. */
  lemma LastValueTruthy(lines: seq<string>, key: string)
    ensures Truthy(LastValue(lines, key)) <==> HasValueLine(lines, key)
  {
    if Truthy(LastValue(lines, key)) {
      LastValueFromLine(lines, key);
      var j :| LastLabelled(lines, key, j) && LastValue(lines, key).value == FieldValue(lines[j], key);
      TrimEmptyIffAllSpace(lines[j][|key|..]);
    }
    if HasValueLine(lines, key) {
      var j :| LastLabelled(lines, key, j) && !AllSpace(lines[j][|key|..]);
      LastValueAt(lines, key, j);
      TrimEmptyIffAllSpace(lines[j][|key|..]);
    }
  }

  /**
   * `!entry.url` is false for a block exactly when the block has a line
   * starting with `URL:` and the last such line has something besides
   * whitespace after the label.
   */
  lemma BlockHasUrl(block: string)
    ensures HasUrl(EntryOf(block)) <==> HasValueLine(SplitLines(block), UrlLabel)
  {
    LastValueTruthy(SplitLines(block), UrlLabel);
  }

  /** The entry of every block, in order, before any is skipped. */
  function Parsed(blocks: seq<string>): (entries: seq<CatalogEntry>)
    ensures |entries| == |blocks|
  {
    if |blocks| == 0 then [] else Parsed(blocks[..|blocks| - 1]) + [EntryOf(blocks[|blocks| - 1])]
  }

  /** The `i`-th entry is the one parsed from the `i`-th block. */
  lemma {:induction false} ParsedAt(blocks: seq<string>, i: nat)
    requires i < |blocks|
    ensures Parsed(blocks)[i] == EntryOf(blocks[i])
  {
    var n := |blocks| - 1;
    if i < n {
      ParsedAt(blocks[..n], i);
      assert blocks[..n][i] == blocks[i];
    }
  }

  /** Parsing one more block appends its entry. */
  lemma ParsedStep(blocks: seq<string>, i: nat)
    requires i < |blocks|
    ensures Parsed(blocks[..i + 1]) == Parsed(blocks[..i]) + [EntryOf(blocks[i])]
  {
    assert blocks[..i + 1][..i] == blocks[..i];
  }

  /** The entries `!entry.url` does not skip, in order. */
  function KeepWithUrl(entries: seq<CatalogEntry>): (kept: seq<CatalogEntry>)
    ensures |kept| <= |entries|
    ensures forall k :: 0 <= k < |kept| ==> HasUrl(kept[k])
  {
    if |entries| == 0 then []
    else
      var e := entries[|entries| - 1];
      KeepWithUrl(entries[..|entries| - 1]) + (if HasUrl(e) then [e] else [])
  }

  /** The catalog of the whole text: trim, split at blank lines, parse, drop URL-less blocks. */
  function Catalog(text: string): seq<CatalogEntry> {
    KeepWithUrl(Parsed(SplitBlocks(Trim(text))))
  }

  /**
   * The blocks of a catalog text: joined back with the blank-line runs between
   * them they give the trimmed text; none contains a blank line; and unless
   * the text is all whitespace, none is blank, so runs of blank lines never
   * yield an extra block.
   */
  lemma CatalogBlocks(text: string)
    ensures Weave(SplitBlocks(Trim(text)), Separators(Trim(text))) == Trim(text)
    ensures forall b :: b in SplitBlocks(Trim(text)) ==> NoSeparatorIn(b)
    ensures !AllSpace(text) ==> forall b :: b in SplitBlocks(Trim(text)) ==> !AllSpace(b)
  {
    var t := Trim(text);
    SplitBlocksRoundTrip(t);
    SplitBlocksHaveNoBlankLine(t);
    TrimEmptyIffAllSpace(text);
    if !AllSpace(text) {
      SplitTrimmedBlocksSolid(t);
    }
  }

  /** A catalog text that is empty or all whitespace has no entries. */
  lemma BlankCatalog(text: string)
    requires AllSpace(text)
    ensures Catalog(text) == []
  {
    TrimEmptyIffAllSpace(text);
    assert SplitBlocks(Trim(text)) == [""];
    assert SplitLines("") == [""];
    assert !StartsWith("", UrlLabel);
    assert Parsed([""]) == [EntryOf("")];
  }

  /** Catalog order follows text order: the kept entries of two runs are those of each, concatenated. */
  lemma {:induction false} KeepAppend(a: seq<CatalogEntry>, b: seq<CatalogEntry>)
    ensures KeepWithUrl(a + b) == KeepWithUrl(a) + KeepWithUrl(b)
    decreases |b|
  {
    if |b| > 0 {
      var n := |b| - 1;
      assert (a + b)[..|a + b| - 1] == a + b[..n];
      assert (a + b)[|a + b| - 1] == b[n];
      KeepAppend(a, b[..n]);
    } else {
      assert a + b == a;
    }
  }

  /** An entry is kept exactly when it is among the entries and has a non-empty URL. */
  lemma {:induction false} KeepMembers(entries: seq<CatalogEntry>, e: CatalogEntry)
    ensures e in KeepWithUrl(entries) <==> e in entries && HasUrl(e)
  {
    if |entries| > 0 {
      var n := |entries| - 1;
      KeepMembers(entries[..n], e);
      assert entries == entries[..n] + [entries[n]];
    }
  }

  /** Every entry is kept, whatever it holds besides a URL, exactly when every entry has a URL. */
  lemma {:induction false} KeepsEveryEntry(entries: seq<CatalogEntry>)
    ensures |KeepWithUrl(entries)| == |entries| <==> forall i :: 0 <= i < |entries| ==> HasUrl(entries[i])
  {
    if |entries| > 0 {
      var n := |entries| - 1;
      var init := entries[..n];
      KeepsEveryEntry(init);
      assert forall i :: 0 <= i < n ==> init[i] == entries[i];
    }
  }

  /** An entry is among the parsed entries exactly when some block parses to it. */
  lemma {:induction false} ParsedMembers(blocks: seq<string>, e: CatalogEntry)
    ensures e in Parsed(blocks) <==> exists i :: 0 <= i < |blocks| && EntryOf(blocks[i]) == e
  {
    if e in Parsed(blocks) {
      var es := Parsed(blocks);
      var i :| 0 <= i < |es| && es[i] == e;
      ParsedAt(blocks, i);
    }
    if exists i :: 0 <= i < |blocks| && EntryOf(blocks[i]) == e {
      var i :| 0 <= i < |blocks| && EntryOf(blocks[i]) == e;
      ParsedAt(blocks, i);
      assert Parsed(blocks)[i] == e;
    }
  }

  /** Every block of a list is kept exactly when every block has a URL. */
  lemma CatalogKeepsEveryUrlBlock(blocks: seq<string>)
    ensures |KeepWithUrl(Parsed(blocks))| == |blocks| <==> forall i :: 0 <= i < |blocks| ==> HasUrl(EntryOf(blocks[i]))
  {
    var es := Parsed(blocks);
    KeepsEveryEntry(es);
    forall i | 0 <= i < |blocks| ensures es[i] == EntryOf(blocks[i]) {
      ParsedAt(blocks, i);
    }
  }

  /** Every URL a parsed entry holds is trimmed. */
  lemma {:induction false} ParsedUrlsTrimmed(blocks: seq<string>)
    ensures forall e :: e in Parsed(blocks) && e.url.Some? ==> IsTrimmed(e.url.value)
  {
    if |blocks| > 0 {
      ParsedUrlsTrimmed(blocks[..|blocks| - 1]);
    }
  }

  /** Every URL a catalog keeps is non-empty and trimmed. */
  lemma CatalogUrlsTrimmed(blocks: seq<string>)
    ensures forall e :: e in KeepWithUrl(Parsed(blocks)) ==> e.url.value != "" && IsTrimmed(e.url.value)
  {
    var es := Parsed(blocks);
    ParsedUrlsTrimmed(blocks);
    forall e | e in KeepWithUrl(es) ensures e.url.value != "" && IsTrimmed(e.url.value) {
      KeepMembers(es, e);
    }
  }
}
