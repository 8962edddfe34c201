/**
 * `text.split(/\n\s*\n/)`: splitting the catalog into blocks at blank lines.
 *
 * The regular expression is matched the way ECMAScript's split does it: the
 * scan tries a sticky match at every position from the start of the current
 * block; the greedy `\s*` takes the whole whitespace run after the first
 * newline and then backs off to the last newline inside that run, so one match
 * swallows any number of blank or whitespace-only lines.
 */
module BlockSplit {
  import opened Wrappers
  import opened JsText

  /** A text that `/\n\s*\n/` matches entirely: a newline, whitespace, a newline. */
  predicate IsSeparator(t: string) {
    |t| >= 2 && t[0] == '\n' && t[|t| - 1] == '\n' && AllSpace(t)
  }

  /** No blank (whitespace-only) line separates two parts of `b`. */
  predicate NoSeparatorIn(b: string) {
    forall i, j :: 0 <= i < j <= |b| ==> !IsSeparator(b[i..j])
  }

  /** The end of the whitespace run that starts at `i`. */
  function RunEnd(s: string, i: nat): (j: nat)
    requires i <= |s|
    ensures i <= j <= |s|
    decreases |s| - i
  {
    if i < |s| && IsSpace(s[i]) then RunEnd(s, i + 1) else i
  }

  /** The run holds only whitespace and stops at the end or at a non-whitespace character. */
  lemma {:induction false} RunEndMeaning(s: string, i: nat)
    requires i <= |s|
    ensures forall k :: i <= k < RunEnd(s, i) ==> IsSpace(s[k])
    ensures RunEnd(s, i) == |s| || !IsSpace(s[RunEnd(s, i)])
    decreases |s| - i
  {
    if i < |s| && IsSpace(s[i]) {
      RunEndMeaning(s, i + 1);
    }
  }

  /** The last newline in `s[lo..hi]`, if any. */
  function LastNewline(s: string, lo: nat, hi: nat): (r: Option<nat>)
    requires lo <= hi <= |s|
    ensures r.Some? ==> lo <= r.value < hi
    decreases hi - lo
  {
    if hi == lo then None
    else if s[hi - 1] == '\n' then Some(hi - 1)
    else LastNewline(s, lo, hi - 1)
  }

  /** `LastNewline` finds a newline with none after it, or reports that there is none. */
  lemma {:induction false} LastNewlineMeaning(s: string, lo: nat, hi: nat)
    requires lo <= hi <= |s|
    ensures var r := LastNewline(s, lo, hi);
      r.Some? ==> s[r.value] == '\n' && forall k :: r.value < k < hi ==> s[k] != '\n'
    ensures LastNewline(s, lo, hi).None? ==> forall k :: lo <= k < hi ==> s[k] != '\n'
    decreases hi - lo
  {
    if hi > lo && s[hi - 1] != '\n' {
      LastNewlineMeaning(s, lo, hi - 1);
    }
  }

  /** A sticky match of `/\n\s*\n/` at position `q`, giving the end of the match. */
  function MatchAt(s: string, q: nat): (e: Option<nat>)
    requires q <= |s|
    ensures e.Some? ==> q + 2 <= e.value <= |s|
  {
    if q < |s| && s[q] == '\n' then
      var run := RunEnd(s, q + 1);
      match LastNewline(s, q + 1, run)
      case None => None
      case Some(k) => Some(k + 1)
    else
      None
  }

  /**
   * What a match means: a match exists exactly when some separator starts at
   * `q`, and it runs up to the last newline of the whitespace run, so the
   * characters between its end and the next non-whitespace character hold no
   * newline.
   */
  lemma MatchAtMeaning(s: string, q: nat)
    requires q <= |s|
    ensures var e := MatchAt(s, q);
      e.Some? ==> e.value <= RunEnd(s, q + 1) && IsSeparator(s[q..e.value])
    ensures var e := MatchAt(s, q);
      e.Some? ==> forall k :: e.value <= k < RunEnd(s, q + 1) ==> s[k] != '\n'
    ensures MatchAt(s, q).None? ==> forall v :: q < v <= |s| ==> !IsSeparator(s[q..v])
  {
    if q < |s| && s[q] == '\n' {
      var run := RunEnd(s, q + 1);
      RunEndMeaning(s, q + 1);
      LastNewlineMeaning(s, q + 1, run);
      match LastNewline(s, q + 1, run)
      case None =>
        forall v | q < v <= |s| ensures !IsSeparator(s[q..v]) {
          if IsSeparator(s[q..v]) {
            NewlineInRun(s, q, v);
          }
        }
      case Some(k) =>
        var t := s[q..k + 1];
        forall i | 0 <= i < |t| ensures IsSpace(t[i]) {
          assert t[i] == s[q + i];
        }
    } else {
      forall v | q < v <= |s| ensures !IsSeparator(s[q..v]) {
        assert s[q..v][0] == s[q];
      }
    }
  }

  /** A separator starting at `q` ends with a newline inside the whitespace run after `q`. */
  lemma NewlineInRun(s: string, q: nat, v: nat)
    requires q < v <= |s| && IsSeparator(s[q..v])
    ensures q + 1 <= v - 1 < RunEnd(s, q + 1) && s[v - 1] == '\n'
  {
    var t := s[q..v];
    assert s[v - 1] == t[|t| - 1];
    forall k | q + 1 <= k < v ensures IsSpace(s[k]) {
      assert s[k] == t[k - q];
    }
    RunEndPast(s, q + 1, v);
  }

  /** `RunEnd` stops at the first non-whitespace character. */
  lemma {:induction false} RunEndPast(s: string, i: nat, v: nat)
    requires i <= v <= |s|
    requires forall k :: i <= k < v ==> IsSpace(s[k])
    ensures v <= RunEnd(s, i)
    decreases v - i
  {
    if i < v {
      RunEndPast(s, i + 1, v);
    }
  }

  /** The blocks of `s[p..]` and the separators between them, scanning for a match from `q`. */
  datatype Pieces = Pieces(blocks: seq<string>, seps: seq<string>)

  function SplitFrom(s: string, p: nat, q: nat): (r: Pieces)
    requires p <= q <= |s|
    ensures |r.blocks| == |r.seps| + 1
    decreases |s| - q
  {
    if q == |s| then Pieces([s[p..]], [])
    else
      match MatchAt(s, q)
      case None => SplitFrom(s, p, q + 1)
      case Some(e) =>
        var rest := SplitFrom(s, e, e);
        Pieces([s[p..q]] + rest.blocks, [s[q..e]] + rest.seps)
  }

  /** `s.split(/\n\s*\n/)`. */
  function SplitBlocks(s: string): (blocks: seq<string>)
    ensures |blocks| >= 1
    ensures s == [] ==> blocks == [""]
  {
    SplitFrom(s, 0, 0).blocks
  }

  /** The separators `SplitBlocks` removed, in order. */
  function Separators(s: string): seq<string> {
    SplitFrom(s, 0, 0).seps
  }

  /** Blocks interleaved with separators: `b0 + sep0 + b1 + ... + bn`. */
  function Weave(blocks: seq<string>, seps: seq<string>): string
    requires |blocks| == |seps| + 1
  {
    if |seps| == 0 then blocks[0] else blocks[0] + seps[0] + Weave(blocks[1..], seps[1..])
  }

  /** One step of the scan past a position where no match starts. */
  lemma ScanStep(s: string, p: nat, q: nat)
    requires p <= q < |s| && MatchAt(s, q).None?
    ensures SplitFrom(s, p, q) == SplitFrom(s, p, q + 1)
  {
  }

  /** One step of the scan at a position where a match starts. */
  lemma MatchStep(s: string, p: nat, q: nat, e: nat)
    requires p <= q < |s| && MatchAt(s, q) == Some(e)
    ensures q < e <= |s|
    ensures SplitFrom(s, p, q).blocks == [s[p..q]] + SplitFrom(s, e, e).blocks
    ensures SplitFrom(s, p, q).seps == [s[q..e]] + SplitFrom(s, e, e).seps
  {
  }

  lemma {:induction false} SplitFromWeave(s: string, p: nat, q: nat)
    requires p <= q <= |s|
    ensures Weave(SplitFrom(s, p, q).blocks, SplitFrom(s, p, q).seps) == s[p..]
    decreases |s| - q
  {
    if q < |s| {
      match MatchAt(s, q)
      case None =>
        ScanStep(s, p, q);
        SplitFromWeave(s, p, q + 1);
      case Some(e) =>
        MatchStep(s, p, q, e);
        SplitFromWeave(s, e, e);
        var rest := SplitFrom(s, e, e);
        var r := SplitFrom(s, p, q);
        assert r.blocks[0] == s[p..q] && r.seps[0] == s[q..e];
        assert r.blocks[1..] == rest.blocks && r.seps[1..] == rest.seps;
        assert Weave(r.blocks, r.seps) == s[p..q] + s[q..e] + Weave(rest.blocks, rest.seps);
        assert s[p..] == s[p..q] + s[q..e] + s[e..];
    }
  }

  lemma {:induction false} SplitFromSeparators(s: string, p: nat, q: nat)
    requires p <= q <= |s|
    ensures forall i :: 0 <= i < |SplitFrom(s, p, q).seps| ==> IsSeparator(SplitFrom(s, p, q).seps[i])
    decreases |s| - q
  {
    if q < |s| {
      match MatchAt(s, q)
      case None =>
        ScanStep(s, p, q);
        SplitFromSeparators(s, p, q + 1);
      case Some(e) =>
        MatchStep(s, p, q, e);
        MatchAtMeaning(s, q);
        SplitFromSeparators(s, e, e);
    }
  }

  /**
   * The split loses nothing: joining the blocks back with the separators
   * between them gives the text again, and every separator is a newline,
   * whitespace and a newline.
   */
  lemma SplitBlocksRoundTrip(s: string)
    ensures |SplitBlocks(s)| == |Separators(s)| + 1
    ensures Weave(SplitBlocks(s), Separators(s)) == s
    ensures forall i :: 0 <= i < |Separators(s)| ==> IsSeparator(Separators(s)[i])
  {
    SplitFromWeave(s, 0, 0);
    SplitFromSeparators(s, 0, 0);
  }

  lemma {:induction false} SplitFromNoSeparator(s: string, p: nat, q: nat)
    requires p <= q <= |s|
    requires forall u :: p <= u < q ==> MatchAt(s, u).None?
    ensures forall b :: b in SplitFrom(s, p, q).blocks ==> NoSeparatorIn(b)
    decreases |s| - q
  {
    if q == |s| {
      ScannedBlock(s, p, q);
      assert s[p..] == s[p..q];
    } else {
      match MatchAt(s, q)
      case None => SplitFromNoSeparator(s, p, q + 1);
      case Some(e) =>
        ScannedBlock(s, p, q);
        SplitFromNoSeparator(s, e, e);
    }
  }

  /** A stretch the scan passed without a match holds no separator. */
  lemma ScannedBlock(s: string, p: nat, q: nat)
    requires p <= q <= |s|
    requires forall u :: p <= u < q ==> MatchAt(s, u).None?
    ensures NoSeparatorIn(s[p..q])
  {
    var b := s[p..q];
    forall i, j | 0 <= i < j <= |b| ensures !IsSeparator(b[i..j]) {
      assert MatchAt(s, p + i).None?;
      MatchAtMeaning(s, p + i);
      SliceOfSlice(s, p, q, i, j);
    }
  }

  lemma SliceOfSlice(s: string, p: nat, q: nat, i: nat, j: nat)
    requires p <= q <= |s| && i <= j <= q - p
    ensures s[p..q][i..j] == s[p + i..p + j]
  {
    var a, b := s[p..q][i..j], s[p + i..p + j];
    assert |a| == |b|;
    forall k | 0 <= k < |a| ensures a[k] == b[k] {
      assert a[k] == s[p..q][i + k] == s[p + i + k];
    }
  }

  /** No block contains a blank line: every blank-line run is consumed as a separator. */
  lemma SplitBlocksHaveNoBlankLine(s: string)
    ensures forall b :: b in SplitBlocks(s) ==> NoSeparatorIn(b)
  {
    SplitFromNoSeparator(s, 0, 0);
  }

  lemma {:induction false} SplitFromSolid(s: string, p: nat, q: nat, t: nat)
    requires p <= q <= |s| && p <= t < |s|
    requires !IsSpace(s[t]) && !IsSpace(s[|s| - 1])
    requires forall u :: q <= u < t ==> s[u] != '\n'
    ensures forall b :: b in SplitFrom(s, p, q).blocks ==> !AllSpace(b)
    decreases |s| - q
  {
    if q == |s| {
      assert s[p..][t - p] == s[t];
    } else {
      match MatchAt(s, q)
      case None => SplitFromSolid(s, p, q + 1, t);
      case Some(e) =>
        MatchAtMeaning(s, q);
        RunEndMeaning(s, q + 1);
        assert s[q..e][0] == s[q];
        assert t < q;
        assert s[p..q][t - p] == s[t];
        var run := RunEnd(s, q + 1);
        SplitFromSolid(s, e, e, run);
    }
  }

  /**
   * Splitting a trimmed, non-empty text gives only blocks that hold some
   * non-whitespace character: a run of blank or whitespace-only lines never
   * produces an extra, empty block.
   */
  lemma SplitTrimmedBlocksSolid(s: string)
    requires s != [] && IsTrimmed(s)
    ensures forall b :: b in SplitBlocks(s) ==> !AllSpace(b)
  {
    SplitFromSolid(s, 0, 0, 0);
  }

  /**
   * A block as the split can produce it from a trimmed text: non-empty, with
   * no whitespace at either end and no blank line inside. Indented lines are
   * allowed.
   */
  predicate CleanBlock(b: string) {
    b != [] && IsTrimmed(b) && NoSeparatorIn(b)
  }

  /** The scan passes a stretch with no match without changing the result. */
  lemma {:induction false} ScanPast(s: string, p: nat, q: nat, r: nat)
    requires p <= q <= r <= |s|
    requires forall u :: q <= u < r ==> MatchAt(s, u).None?
    ensures SplitFrom(s, p, q) == SplitFrom(s, p, r)
    decreases r - q
  {
    if q < r {
      ScanStep(s, p, q);
      ScanPast(s, p, q + 1, r);
    }
  }

  /** Inside a clean block that sits in `s` at `p`, no match starts. */
  lemma NoMatchInClean(s: string, p: nat, b: string, u: nat)
    requires p + |b| <= |s| && s[p..p + |b|] == b && CleanBlock(b)
    requires p <= u < p + |b|
    ensures MatchAt(s, u).None?
  {
    var last := p + |b| - 1;
    assert !IsSpace(s[last]) by {
      assert s[last] == b[|b| - 1];
    }
    forall v | u < v <= |s| ensures !IsSeparator(s[u..v]) {
      if v <= p + |b| {
        SliceOfSlice(s, p, p + |b|, u - p, v - p);
      } else {
        assert s[u..v][last - u] == s[last];
      }
    }
    MatchAtMeaning(s, u);
  }

  /** A separator at `u` followed by a non-whitespace character is matched in full. */
  lemma MatchWholeSeparator(s: string, u: nat, sep: string)
    requires u + |sep| < |s| && s[u..u + |sep|] == sep && IsSeparator(sep)
    requires !IsSpace(s[u + |sep|])
    ensures MatchAt(s, u) == Some(u + |sep|)
  {
    assert s[u] == sep[0];
    forall k | u + 1 <= k < u + |sep| ensures IsSpace(s[k]) {
      assert s[k] == sep[k - u];
    }
    RunEndPast(s, u + 1, u + |sep|);
    RunEndMeaning(s, u + 1);
    assert RunEnd(s, u + 1) == u + |sep|;
    assert s[u + |sep| - 1] == sep[|sep| - 1];
  }

  /** The scan crosses a clean block without finding a match. */
  lemma {:induction false} ScanClean(s: string, p: nat, b: string, q: nat)
    requires p + |b| <= |s| && s[p..p + |b|] == b && CleanBlock(b)
    requires p <= q <= p + |b|
    ensures SplitFrom(s, p, q) == SplitFrom(s, p, p + |b|)
    decreases p + |b| - q
  {
    if q < p + |b| {
      NoMatchInClean(s, p, b, q);
      ScanStep(s, p, q);
      ScanClean(s, p, b, q + 1);
    }
  }

  /** A clean block that runs to the end of the text is the last piece. */
  lemma WovenLast(s: string, p: nat, b: string)
    requires p <= |s| && s[p..] == b && CleanBlock(b)
    ensures SplitFrom(s, p, p) == Pieces([b], [])
  {
    assert s[p..p + |b|] == b;
    ScanClean(s, p, b, p);
  }

  /** A clean block followed by a separator and more text is split off as the first piece. */
  lemma WovenFirst(s: string, p: nat, b: string, sep: string)
    requires CleanBlock(b) && IsSeparator(sep)
    requires p + |b| + |sep| < |s| && !IsSpace(s[p + |b| + |sep|])
    requires s[p..p + |b|] == b && s[p + |b|..p + |b| + |sep|] == sep
    ensures var next := SplitFrom(s, p + |b| + |sep|, p + |b| + |sep|);
      SplitFrom(s, p, p) == Pieces([b] + next.blocks, [sep] + next.seps)
  {
    var end := p + |b|;
    ScanClean(s, p, b, p);
    MatchWholeSeparator(s, end, sep);
    MatchStep(s, p, end, end + |sep|);
    assert s[p..end] == b && s[end..end + |sep|] == sep;
  }

  /** A weave of at least two blocks starts with the second block's first character after the first separator. */
  lemma WeaveHead(blocks: seq<string>, seps: seq<string>)
    requires |blocks| == |seps| + 1 && blocks[0] != []
    ensures Weave(blocks, seps) != [] && Weave(blocks, seps)[0] == blocks[0][0]
  {
  }

  /** Where `s[p..]` is `b + sep + rest`, the three parts sit at their offsets. */
  lemma SuffixParts(s: string, p: nat, b: string, sep: string, rest: string)
    requires p <= |s| && s[p..] == b + sep + rest
    ensures p + |b| + |sep| <= |s|
    ensures s[p..p + |b|] == b && s[p + |b|..p + |b| + |sep|] == sep
    ensures s[p + |b| + |sep|..] == rest
  {
    var t := s[p..];
    assert s[p..p + |b|] == t[..|b|];
    assert s[p + |b|..p + |b| + |sep|] == t[|b|..|b| + |sep|];
    assert s[p + |b| + |sep|..] == t[|b| + |sep|..];
  }

  predicate AllClean(blocks: seq<string>) {
    forall i :: 0 <= i < |blocks| ==> CleanBlock(blocks[i])
  }

  predicate AllSeparators(seps: seq<string>) {
    forall i :: 0 <= i < |seps| ==> IsSeparator(seps[i])
  }

  lemma TailsKeepShape(blocks: seq<string>, seps: seq<string>)
    requires |blocks| == |seps| + 1 && |seps| > 0 && AllClean(blocks) && AllSeparators(seps)
    ensures AllClean(blocks[1..]) && AllSeparators(seps[1..])
    ensures CleanBlock(blocks[0]) && CleanBlock(blocks[1]) && IsSeparator(seps[0])
  {
    assert forall i :: 0 <= i < |blocks| - 1 ==> blocks[1..][i] == blocks[i + 1];
    assert forall i :: 0 <= i < |seps| - 1 ==> seps[1..][i] == seps[i + 1];
  }

  lemma {:induction false} SplitFromWoven(s: string, p: nat, blocks: seq<string>, seps: seq<string>)
    requires |blocks| == |seps| + 1 && AllClean(blocks) && AllSeparators(seps)
    requires p <= |s| && s[p..] == Weave(blocks, seps)
    ensures SplitFrom(s, p, p) == Pieces(blocks, seps)
    decreases |seps|
  {
    if |seps| == 0 {
      WovenLast(s, p, blocks[0]);
    } else {
      var b, sep := blocks[0], seps[0];
      var blocks', seps' := blocks[1..], seps[1..];
      TailsKeepShape(blocks, seps);
      var rest := Weave(blocks', seps');
      assert blocks'[0] == blocks[1];
      WeaveHead(blocks', seps');
      SuffixParts(s, p, b, sep, rest);
      var e := p + |b| + |sep|;
      assert s[e] == rest[0] by {
        assert s[e..][0] == s[e];
      }
      WovenFirst(s, p, b, sep);
      SplitFromWoven(s, e, blocks', seps');
      assert [b] + blocks' == blocks;
      assert [sep] + seps' == seps;
    }
  }

  /**
   * The converse of `SplitBlocksRoundTrip`: clean blocks joined by blank-line
   * separators split back into exactly those blocks and separators.
   */
  lemma SplitWovenBlocks(blocks: seq<string>, seps: seq<string>)
    requires |blocks| == |seps| + 1
    requires forall i :: 0 <= i < |blocks| ==> CleanBlock(blocks[i])
    requires forall i :: 0 <= i < |seps| ==> IsSeparator(seps[i])
    ensures SplitBlocks(Weave(blocks, seps)) == blocks
    ensures Separators(Weave(blocks, seps)) == seps
  {
    assert AllClean(blocks) && AllSeparators(seps);
    SplitFromWoven(Weave(blocks, seps), 0, blocks, seps);
  }
}
