/**
 * The JavaScript string operations the crawler relies on: `trim()`,
 * `startsWith`, `replace` with a string pattern, and `split("\n")`.
 * Strings are sequences of Unicode scalar values; every character that
 * JavaScript treats as whitespace lies in the Basic Multilingual Plane, so
 * trimming and whitespace matching agree with the UTF-16 original.
 */
module JsText {
  import opened Wrappers

  /** ECMAScript WhiteSpace and LineTerminator code points: what `trim()` removes and what `\s` matches. */
  predicate IsSpace(c: char) {
    var n := c as int;
    (9 <= n <= 13) || n == 0x20 || n == 0xA0 || n == 0x1680 || (0x2000 <= n <= 0x200A)
    || n == 0x2028 || n == 0x2029 || n == 0x202F || n == 0x205F || n == 0x3000 || n == 0xFEFF
  }

  predicate AllSpace(s: string) {
    forall i :: 0 <= i < |s| ==> IsSpace(s[i])
  }

  /** Neither end of `s` is whitespace. */
  predicate IsTrimmed(s: string) {
    s == [] || (!IsSpace(s[0]) && !IsSpace(s[|s| - 1]))
  }

  function TrimStart(s: string): (r: string)
    ensures |r| <= |s| && r == s[|s| - |r|..]
    ensures AllSpace(s[..|s| - |r|])
    ensures r == [] || !IsSpace(r[0])
  {
    if |s| > 0 && IsSpace(s[0]) then TrimStart(s[1..]) else s
  }

  function TrimEnd(s: string): (r: string)
    ensures |r| <= |s| && r == s[..|r|]
    ensures AllSpace(s[|r|..])
    ensures r == [] || !IsSpace(r[|r| - 1])
  {
    if |s| > 0 && IsSpace(s[|s| - 1]) then
      var r := TrimEnd(s[..|s| - 1]);
      assert s[|r|..] == s[..|s| - 1][|r|..] + [s[|s| - 1]];
      r
    else s
  }

  /** `String.prototype.trim`: `s` with its leading and trailing whitespace removed. */
  function Trim(s: string): (r: string)
    ensures IsTrimmed(r) && |r| <= |s|
  {
    var t := TrimStart(s);
    var r := TrimEnd(t);
    assert r == [] || !IsSpace(r[0]) by {
      if r != [] { assert r[0] == t[0]; }
    }
    r
  }

  /** What `Trim` removes is whitespace on both sides: `s` is `lead + Trim(s) + trail`. */
  lemma {:induction false} TrimSlice(s: string) returns (i: nat)
    ensures i + |Trim(s)| <= |s|
    ensures AllSpace(s[..i]) && AllSpace(s[i + |Trim(s)|..])
    ensures Trim(s) == s[i..i + |Trim(s)|]
  {
    var t := TrimStart(s);
    var r := TrimEnd(t);
    assert Trim(s) == r;
    i := |s| - |t|;
    SpaceAround(s, t, r);
  }

  /**
   * When `t` is a suffix of `s` with only whitespace before it, and `r` a
   * prefix of `t` with only whitespace after it, `r` sits in `s` between
   * whitespace.
   */
  lemma SpaceAround(s: string, t: string, r: string)
    requires |t| <= |s| && t == s[|s| - |t|..] && AllSpace(s[..|s| - |t|])
    requires |r| <= |t| && r == t[..|r|] && AllSpace(t[|r|..])
    ensures r == s[|s| - |t|..|s| - |t| + |r|]
    ensures AllSpace(s[|s| - |t| + |r|..])
  {
    assert t[|r|..] == s[|s| - |t| + |r|..];
  }

  /** Trimming yields the empty string exactly when the input is all whitespace. */
  lemma TrimEmptyIffAllSpace(s: string)
    ensures Trim(s) == [] <==> AllSpace(s)
  {
    var r := Trim(s);
    var i := TrimSlice(s);
    if r == [] {
      forall k | 0 <= k < |s| ensures IsSpace(s[k]) {
        if k < i { assert s[..i][k] == s[k]; } else { assert s[i..][k - i] == s[k]; }
      }
    } else {
      assert s[i] == r[0];
    }
  }

  lemma {:induction false} TrimStartSkips(lead: string, x: string)
    requires AllSpace(lead) && x != [] && !IsSpace(x[0])
    ensures TrimStart(lead + x) == x
  {
    if |lead| > 0 {
      assert (lead + x)[1..] == lead[1..] + x;
      TrimStartSkips(lead[1..], x);
    } else {
      assert lead + x == x;
    }
  }

  lemma {:induction false} TrimEndSkips(x: string, trail: string)
    requires AllSpace(trail) && x != [] && !IsSpace(x[|x| - 1])
    ensures TrimEnd(x + trail) == x
  {
    if |trail| > 0 {
      assert (x + trail)[..|x + trail| - 1] == x + trail[..|trail| - 1];
      TrimEndSkips(x, trail[..|trail| - 1]);
    } else {
      assert x + trail == x;
    }
  }

  /**
   * `Trim` is determined by what it promises: whitespace around a non-empty
   * trimmed core is exactly what it removes.
   */
  lemma TrimAround(lead: string, core: string, trail: string)
    requires AllSpace(lead) && AllSpace(trail) && core != [] && IsTrimmed(core)
    ensures Trim(lead + core + trail) == core
  {
    assert lead + core + trail == lead + (core + trail);
    TrimStartSkips(lead, core + trail);
    TrimEndSkips(core, trail);
  }

  /** Trimming is idempotent. */
  lemma TrimTrimmed(s: string)
    requires IsTrimmed(s)
    ensures Trim(s) == s
  {
    assert TrimStart(s) == s;
    assert TrimEnd(s) == s;
  }

  predicate StartsWith(s: string, prefix: string) {
    |prefix| <= |s| && s[..|prefix|] == prefix
  }

  /** `s.indexOf(pat, from)`: the first position at or after `from` where `pat` occurs. */
  function IndexOfFrom(s: string, pat: string, from: nat): (r: Option<nat>)
    requires from <= |s|
    ensures r.Some? ==> from <= r.value <= |s| && StartsWith(s[r.value..], pat)
    ensures r.Some? ==> forall k :: from <= k < r.value ==> !StartsWith(s[k..], pat)
    ensures r.None? ==> forall k :: from <= k <= |s| ==> !StartsWith(s[k..], pat)
    decreases |s| - from
  {
    if StartsWith(s[from..], pat) then Some(from)
    else if from == |s| then None
    else IndexOfFrom(s, pat, from + 1)
  }

  /**
   * `s.replace(pat, rep)` with a string pattern: only the first occurrence is
   * replaced. The `$` patterns JavaScript expands in `rep` are not modelled;
   * the crawler always passes `""`.
   */
  function ReplaceFirst(s: string, pat: string, rep: string): (r: string)
    ensures IndexOfFrom(s, pat, 0).None? ==> r == s
    ensures StartsWith(s, pat) ==> r == rep + s[|pat|..]
  {
    match IndexOfFrom(s, pat, 0)
    case None => s
    case Some(i) => s[..i] + rep + s[i + |pat|..]
  }

  /** `replace` acts on the leftmost occurrence of the pattern and leaves the rest of `s` as it was. */
  lemma ReplaceFirstLeftmost(s: string, pat: string, rep: string, i: nat)
    requires i <= |s| && StartsWith(s[i..], pat)
    requires forall k :: 0 <= k < i ==> !StartsWith(s[k..], pat)
    ensures i + |pat| <= |s|
    ensures ReplaceFirst(s, pat, rep) == s[..i] + rep + s[i + |pat|..]
  {
    var r := IndexOfFrom(s, pat, 0);
    assert r.Some? && r.value == i;
  }

  /** JavaScript truthiness of a value that is a string or `undefined`: defined and not `""`. */
  predicate Truthy(v: Option<string>) {
    v.Some? && v.value != ""
  }

  /** `s.split("\n")`: the pieces between newline characters, empty ones included. */
  function SplitLines(s: string): (lines: seq<string>)
    ensures |lines| >= 1
    ensures forall i :: 0 <= i < |lines| ==> '\n' !in lines[i]
    ensures JoinLines(lines) == s
  {
    if |s| == 0 then [""]
    else
      var rest := SplitLines(s[1..]);
      if s[0] == '\n' then
        assert [""] + rest == [""] + [rest[0]] + rest[1..];
        [""] + rest
      else
        var lines := [[s[0]] + rest[0]] + rest[1..];
        JoinLinesHead(lines, rest, s[0]);
        lines
  }

  /** `lines.join("\n")`, the inverse of `SplitLines`. */
  function JoinLines(lines: seq<string>): string
    requires |lines| >= 1
  {
    if |lines| == 1 then lines[0] else lines[0] + "\n" + JoinLines(lines[1..])
  }

  lemma JoinLinesHead(lines: seq<string>, rest: seq<string>, c: char)
    requires |rest| >= 1 && lines == [[c] + rest[0]] + rest[1..]
    ensures JoinLines(lines) == [c] + JoinLines(rest)
  {
    if |rest| > 1 {
      assert lines[1..] == rest[1..];
    }
  }

  lemma {:induction false} SplitLinesSingle(x: string)
    requires '\n' !in x
    ensures SplitLines(x) == [x]
  {
    if |x| > 0 {
      assert x[0] in x;
      assert forall c :: c in x[1..] ==> c in x;
      SplitLinesSingle(x[1..]);
      assert [x[0]] + x[1..] == x;
    }
  }

  lemma {:induction false} SplitLinesCons(x: string, y: string)
    requires '\n' !in x
    ensures SplitLines(x + "\n" + y) == [x] + SplitLines(y)
  {
    var s := x + "\n" + y;
    if |x| == 0 {
      assert s[1..] == y;
    } else {
      assert x[0] in x;
      assert forall c :: c in x[1..] ==> c in x;
      assert s[1..] == x[1..] + "\n" + y;
      SplitLinesCons(x[1..], y);
      assert [x[0]] + x[1..] == x;
    }
  }

  /** The converse of `SplitLines`' round trip: lines without newlines, joined and split again, come back unchanged. */
  lemma {:induction false} SplitJoinLines(lines: seq<string>)
    requires |lines| >= 1
    requires forall i :: 0 <= i < |lines| ==> '\n' !in lines[i]
    ensures SplitLines(JoinLines(lines)) == lines
  {
    if |lines| == 1 {
      SplitLinesSingle(lines[0]);
    } else {
      SplitJoinLines(lines[1..]);
      SplitLinesCons(lines[0], JoinLines(lines[1..]));
    }
  }
}
