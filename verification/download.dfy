/** lib/download.ts: the file name a downloaded song is saved under. */
module Download {
  import opened Wrappers
  import opened Text
  import opened Types

  predicate IsAsciiAlnum(c: char) {
    ('a' <= c <= 'z') || ('A' <= c <= 'Z') || ('0' <= c <= '9')
  }

  /** What a sanitised file name may contain: `[a-z0-9_]`. */
  predicate IsFileNameChar(c: char) {
    ('a' <= c <= 'z') || ('0' <= c <= '9') || c == '_'
  }

  /** No two consecutive underscores. */
  ghost predicate NoDoubleUnderscore(s: string) {
    forall i, j :: 0 <= i < j < |s| && j == i + 1 ==> !(s[i] == '_' && s[j] == '_')
  }

  /** A file name as `sanitizeFileName` returns it: non-empty, `[a-z0-9_]`
      only, no '_' at either end and no "__". */
  ghost predicate IsCleanFileName(s: string) {
    && s != []
    && (forall i :: 0 <= i < |s| ==> IsFileNameChar(s[i]))
    && s[0] != '_' && s[|s| - 1] != '_'
    && NoDoubleUnderscore(s)
  }

  /** The ASCII letters and digits of `s`, in order. */
  function Alnums(s: string): (r: string)
    ensures forall i :: 0 <= i < |r| ==> IsAsciiAlnum(r[i])
    ensures |r| <= |s|
  {
    if s == [] then []
    else if IsAsciiAlnum(s[0]) then [s[0]] + Alnums(s[1..])
    else Alnums(s[1..])
  }

  lemma {:induction false} AlnumsConcat(a: string, b: string)
    ensures Alnums(a + b) == Alnums(a) + Alnums(b)
    decreases |a|
  {
    if a != [] {
      assert (a + b)[0] == a[0];
      assert (a + b)[1..] == a[1..] + b;
      AlnumsConcat(a[1..], b);
    } else {
      assert a + b == b;
    }
  }

  /** A string with no ASCII letter or digit has none to keep. */
  lemma {:induction false} AlnumsOfNone(s: string)
    requires forall i :: 0 <= i < |s| ==> !IsAsciiAlnum(s[i])
    ensures Alnums(s) == []
    decreases |s|
  {
    if s != [] {
      AlnumsOfNone(s[1..]);
    }
  }

  /** Drops the leading characters that are not ASCII letters or digits. */
  function SkipNonAlnum(s: string): (r: string)
    ensures |r| <= |s| && r == s[|s| - |r|..]
    ensures r == [] || IsAsciiAlnum(r[0])
    ensures s != [] && IsAsciiAlnum(s[|s| - 1]) ==> r != []
    ensures s != [] && r == [] ==> !IsAsciiAlnum(s[|s| - 1])
  {
    if s != [] && !IsAsciiAlnum(s[0]) then SkipNonAlnum(s[1..]) else s
  }

  /** Skipping drops no letter or digit. */
  lemma {:induction false} SkipKeepsAlnums(s: string)
    ensures Alnums(SkipNonAlnum(s)) == Alnums(s)
    decreases |s|
  {
    if s != [] && !IsAsciiAlnum(s[0]) {
      SkipKeepsAlnums(s[1..]);
    }
  }

  /** Skipping stops inside `x` when `x` ends in a letter or digit. */
  lemma {:induction false} SkipNonAlnumAppend(x: string, y: string)
    requires x != [] && IsAsciiAlnum(x[|x| - 1])
    ensures SkipNonAlnum(x + y) == SkipNonAlnum(x) + y
    decreases |x|
  {
    if !IsAsciiAlnum(x[0]) {
      assert (x + y)[0] == x[0] && (x + y)[1..] == x[1..] + y;
      SkipNonAlnumAppend(x[1..], y);
    }
  }

  /** A run without letters or digits is skipped entirely. */
  lemma {:induction false} SkipNonAlnumRun(run: string, b: string)
    requires forall i :: 0 <= i < |run| ==> !IsAsciiAlnum(run[i])
    requires b == [] || IsAsciiAlnum(b[0])
    ensures SkipNonAlnum(run + b) == b
    decreases |run|
  {
    if run == [] {
      assert run + b == b;
    } else {
      assert (run + b)[0] == run[0] && (run + b)[1..] == run[1..] + b;
      SkipNonAlnumRun(run[1..], b);
    }
  }

  /** `.replace(/[^a-z0-9]+/gi, '_')`: each maximal run of characters other
      than ASCII letters and digits becomes a single '_'. */
  function Collapse(s: string): string
    decreases |s|
  {
    if s == [] then []
    else if IsAsciiAlnum(s[0]) then [s[0]] + Collapse(s[1..])
    else ['_'] + Collapse(SkipNonAlnum(s[1..]))
  }

  /** The replacement with what it guarantees: only letters, digits and '_'
      remain, no "__" arises, the letters and digits are kept in order, and
      the result starts with '_' exactly when the input starts with a run. */
  function CollapseRuns(s: string): (r: string)
    ensures forall i :: 0 <= i < |r| ==> IsAsciiAlnum(r[i]) || r[i] == '_'
    ensures NoDoubleUnderscore(r)
    ensures Alnums(r) == Alnums(s)
    ensures s == [] <==> r == []
    ensures r != [] ==> (r[0] == '_' <==> !IsAsciiAlnum(s[0]))
  {
    CollapseShape(s);
    Collapse(s)
  }

  lemma {:induction false} CollapseShape(s: string)
    ensures var r := Collapse(s);
      && (forall i :: 0 <= i < |r| ==> IsAsciiAlnum(r[i]) || r[i] == '_')
      && NoDoubleUnderscore(r)
      && Alnums(r) == Alnums(s)
      && (s == [] <==> r == [])
      && (r != [] ==> (r[0] == '_' <==> !IsAsciiAlnum(s[0])))
    decreases |s|
  {
    if s != [] {
      if IsAsciiAlnum(s[0]) {
        var rest := Collapse(s[1..]);
        CollapseShape(s[1..]);
        assert Alnums([s[0]] + rest) == [s[0]] + Alnums(rest);
      } else {
        var t := SkipNonAlnum(s[1..]);
        CollapseShape(t);
        SkipKeepsAlnums(s[1..]);
        var rest := Collapse(t);
        assert Alnums(['_'] + rest) == Alnums(rest);
      }
    }
  }

  /** The result ends in '_' exactly when the input ends in a run. */
  lemma CollapseRunsLast(s: string)
    requires s != []
    ensures var r := CollapseRuns(s);
      r[|r| - 1] == '_' <==> !IsAsciiAlnum(s[|s| - 1])
  {
    CollapseLast(s);
  }

  lemma {:induction false} CollapseLast(s: string)
    requires s != []
    ensures var r := Collapse(s);
      r != [] && (r[|r| - 1] == '_' <==> !IsAsciiAlnum(s[|s| - 1]))
    decreases |s|
  {
    var r := Collapse(s);
    var last := s[|s| - 1];
    if IsAsciiAlnum(s[0]) {
      var tail := s[1..];
      var rest := Collapse(tail);
      assert r == [s[0]] + rest;
      if tail == [] {
        assert rest == [] && last == s[0];
      } else {
        CollapseLast(tail);
        assert tail[|tail| - 1] == last;
        assert r[|r| - 1] == rest[|rest| - 1];
      }
    } else {
      var t := SkipNonAlnum(s[1..]);
      var rest := Collapse(t);
      assert r == ['_'] + rest;
      if t != [] {
        CollapseLast(t);
        assert t[|t| - 1] == last;
        assert r[|r| - 1] == rest[|rest| - 1];
      } else {
        assert rest == [];
        if s[1..] != [] {
          assert s[1..][|s[1..]| - 1] == last;
        }
      }
    }
  }

  /** Where the '_' goes: a run of other characters between two stretches
      that border it with letters or digits becomes exactly one '_'. */
  lemma CollapseRunsSplit(a: string, run: string, b: string)
    requires a == [] || IsAsciiAlnum(a[|a| - 1])
    requires run != [] && forall i :: 0 <= i < |run| ==> !IsAsciiAlnum(run[i])
    requires b == [] || IsAsciiAlnum(b[0])
    ensures CollapseRuns(a + run + b) == CollapseRuns(a) + "_" + CollapseRuns(b)
  {
    CollapseSplit(a, run, b);
  }

  lemma {:induction false} CollapseSplit(a: string, run: string, b: string)
    requires a == [] || IsAsciiAlnum(a[|a| - 1])
    requires run != [] && forall i :: 0 <= i < |run| ==> !IsAsciiAlnum(run[i])
    requires b == [] || IsAsciiAlnum(b[0])
    ensures Collapse(a + run + b) == Collapse(a) + "_" + Collapse(b)
    decreases |a|, 1
  {
    if a == [] {
      assert a + run + b == run + b;
      CollapseRunThen(run, b);
    } else {
      SplitPastFirst(a, run, b);
    }
  }

  /** The step of `CollapseSplit`: what `a` starts with is collapsed the
      same with or without the run and `b` after it. */
  lemma {:induction false} SplitPastFirst(a: string, run: string, b: string)
    requires a != [] && IsAsciiAlnum(a[|a| - 1])
    requires run != [] && forall i :: 0 <= i < |run| ==> !IsAsciiAlnum(run[i])
    requires b == [] || IsAsciiAlnum(b[0])
    ensures Collapse(a + run + b) == Collapse(a) + "_" + Collapse(b)
    decreases |a|, 0
  {
    var tail := run + b;
    var a1 := if IsAsciiAlnum(a[0]) then a[1..] else SkipNonAlnum(a[1..]);
    var head := if IsAsciiAlnum(a[0]) then [a[0]] else "_";
    if IsAsciiAlnum(a[0]) {
      CollapseAlnumFirst(a, tail);
      assert a1 == [] || a1[|a1| - 1] == a[|a| - 1];
    } else {
      CollapseRunFirst(a, tail);
      assert a1[|a1| - 1] == a[|a| - 1];
    }
    CollapseSplit(a1, run, b);
    ConcatAssoc(a, run, b);
    ConcatAssoc(a1, run, b);
    Regroup(head, Collapse(a1), "_", Collapse(b));
  }

  lemma Regroup<T>(w: seq<T>, x: seq<T>, y: seq<T>, z: seq<T>)
    ensures w + (x + y + z) == w + x + y + z
  {
  }

  lemma ConcatAssoc<T>(x: seq<T>, y: seq<T>, z: seq<T>)
    ensures x + y + z == x + (y + z)
  {
  }

  /** A leading run, then letters and digits (or nothing): one '_' in front. */
  lemma CollapseRunThen(run: string, b: string)
    requires run != [] && forall i :: 0 <= i < |run| ==> !IsAsciiAlnum(run[i])
    requires b == [] || IsAsciiAlnum(b[0])
    ensures Collapse(run + b) == "_" + Collapse(b)
  {
    var s := run + b;
    var tail := run[1..];
    assert s[0] == run[0] && s[1..] == tail + b;
    assert forall i :: 0 <= i < |tail| ==> tail[i] == run[i + 1];
    SkipNonAlnumRun(tail, b);
  }

  /** A leading letter or digit is kept, and the rest collapses on its own. */
  lemma CollapseAlnumFirst(a: string, rest: string)
    requires a != [] && IsAsciiAlnum(a[0])
    ensures Collapse(a + rest) == [a[0]] + Collapse(a[1..] + rest)
    ensures Collapse(a) == [a[0]] + Collapse(a[1..])
  {
    assert (a + rest)[0] == a[0] && (a + rest)[1..] == a[1..] + rest;
  }

  /** A leading run inside `a` that ends in a letter or digit becomes one
      '_', the same with or without what follows `a`. */
  lemma CollapseRunFirst(a: string, rest: string)
    requires a != [] && !IsAsciiAlnum(a[0]) && IsAsciiAlnum(a[|a| - 1])
    ensures |a| >= 2 && SkipNonAlnum(a[1..]) != []
    ensures Collapse(a + rest) == "_" + Collapse(SkipNonAlnum(a[1..]) + rest)
    ensures Collapse(a) == "_" + Collapse(SkipNonAlnum(a[1..]))
  {
    assert a[1..][|a[1..]| - 1] == a[|a| - 1];
    assert (a + rest)[0] == a[0] && (a + rest)[1..] == a[1..] + rest;
    SkipNonAlnumAppend(a[1..], rest);
  }

  /** `.replace(/^_+|_+$/g, '')`: the string without its leading and trailing underscores. */
  function StripUnderscores(s: string): (r: string)
    ensures r == [] || (r[0] != '_' && r[|r| - 1] != '_')
    ensures var k := LeadingUnderscores(s);
      k + |r| <= |s| && r == s[k..k + |r|]
      && (forall i :: 0 <= i < k ==> s[i] == '_')
      && (forall i :: k + |r| <= i < |s| ==> s[i] == '_')
  {
    var k := LeadingUnderscores(s);
    var m := TrailingUnderscores(s[k..]);
    StripParts(s, k, m);
    s[k..|s| - m]
  }

  /** How many underscores `s` starts with. */
  function LeadingUnderscores(s: string): (n: nat)
    ensures n <= |s| && forall i :: 0 <= i < n ==> s[i] == '_'
    ensures n < |s| ==> s[n] != '_'
  {
    if s != [] && s[0] == '_' then
      var m := LeadingUnderscores(s[1..]);
      assert forall i :: 1 <= i < m + 1 ==> s[i] == s[1..][i - 1];
      m + 1
    else 0
  }

  /** How many underscores `s` ends with. */
  function TrailingUnderscores(s: string): (n: nat)
    ensures n <= |s| && forall i :: |s| - n <= i < |s| ==> s[i] == '_'
    ensures n < |s| ==> s[|s| - n - 1] != '_'
  {
    if s != [] && s[|s| - 1] == '_' then
      var front := s[..|s| - 1];
      var m := TrailingUnderscores(front);
      assert forall i :: |s| - (m + 1) <= i < |s| - 1 ==> s[i] == front[i];
      m + 1
    else 0
  }

  /** Cutting `k` leading underscores and then the `m` trailing ones of what is left. */
  lemma StripParts(s: string, k: nat, m: nat)
    requires k <= |s| && (forall i :: 0 <= i < k ==> s[i] == '_') && (k < |s| ==> s[k] != '_')
    requires m <= |s| - k && forall i :: |s| - k - m <= i < |s| - k ==> s[k..][i] == '_'
    requires m < |s| - k ==> s[k..][|s| - k - m - 1] != '_'
    ensures var r := s[k..|s| - m];
      && (r == [] || (r[0] != '_' && r[|r| - 1] != '_'))
      && k + |r| == |s| - m
      && (forall i :: |s| - m <= i < |s| ==> s[i] == '_')
  {
    var r := s[k..|s| - m];
    forall i | |s| - m <= i < |s| ensures s[i] == '_' {
      assert s[i] == s[k..][i - k];
    }
    if r != [] {
      assert s[k..][|s| - k - m - 1] == s[|s| - m - 1];
      assert r[0] == s[k] && r[|r| - 1] == s[|s| - m - 1];
    }
  }

  function LowerChar(c: char): char {
    if 'A' <= c <= 'Z' then (c as int + 32) as char else c
  }

  /** `toLowerCase` on text that holds only ASCII letters, digits and '_'
      (all that is left when the source applies it). */
  function LowerCase(s: string): (r: string)
    ensures |r| == |s|
    ensures forall i :: 0 <= i < |s| ==> r[i] == LowerChar(s[i])
  {
    if s == [] then [] else [LowerChar(s[0])] + LowerCase(s[1..])
  }

  const FallbackFileName: string := "soundwave_track"

  lemma FallbackIsClean()
    ensures IsCleanFileName(FallbackFileName)
  {
    var f := FallbackFileName;
    forall i, j | 0 <= i < j < |f| && j == i + 1 ensures !(f[i] == '_' && f[j] == '_') {
    }
  }

  /** `sanitizeFileName`: a clean file name that keeps the input's ASCII
      letters (lower-cased) and digits in order, or the fallback name when
      the input has none. */
  function SanitizeFileName(name: string): (r: string)
    ensures IsCleanFileName(r)
    ensures Alnums(name) == [] ==> r == FallbackFileName
    ensures Alnums(name) != [] ==> Alnums(r) == LowerCase(Alnums(name))
  {
    LoweredIsClean(name);
    LoweredKeepsAlnums(name);
    FallbackIsClean();
    if Lowered(name) == [] then FallbackFileName else Lowered(name)
  }

  /** The name after all four steps, before the fallback. */
  function Lowered(name: string): string {
    LowerCase(StripStep(CollapseStep(name)))
  }

  lemma LoweredIsClean(name: string)
    ensures Lowered(name) != [] ==> IsCleanFileName(Lowered(name))
  {
    var stripped := StripStep(CollapseStep(name));
    LowerKeepsShape(stripped, LowerCase(stripped));
  }

  lemma LoweredKeepsAlnums(name: string)
    ensures Lowered(name) == [] <==> Alnums(name) == []
    ensures Alnums(Lowered(name)) == LowerCase(Alnums(name))
  {
    var stripped := StripStep(CollapseStep(name));
    LowerKeepsAlnums(stripped);
  }

  /** The first two steps: trim, then collapse every run of other characters. */
  function CollapseStep(name: string): (c: string)
    ensures forall i :: 0 <= i < |c| ==> IsAsciiAlnum(c[i]) || c[i] == '_'
    ensures NoDoubleUnderscore(c)
    ensures Alnums(c) == Alnums(name)
  {
    var trimmed := Trim(name);
    TrimKeepsAlnums(name, trimmed);
    CollapseRuns(trimmed)
  }

  /** The third step: cut the outer underscores of collapsed text. */
  function StripStep(collapsed: string): (r: string)
    requires forall i :: 0 <= i < |collapsed| ==> IsAsciiAlnum(collapsed[i]) || collapsed[i] == '_'
    requires NoDoubleUnderscore(collapsed)
    ensures forall i :: 0 <= i < |r| ==> IsAsciiAlnum(r[i]) || r[i] == '_'
    ensures NoDoubleUnderscore(r)
    ensures r != [] ==> IsAsciiAlnum(r[0]) && IsAsciiAlnum(r[|r| - 1])
    ensures r == [] <==> Alnums(r) == []
    ensures Alnums(r) == Alnums(collapsed)
  {
    var stripped := StripUnderscores(collapsed);
    StripKeepsAlnums(collapsed, stripped);
    StripKeepsShape(collapsed, stripped, LeadingUnderscores(collapsed));
    stripped
  }

  /** Stripping the outer underscores of collapsed text leaves a clean name,
      or nothing when there was no letter or digit. */
  lemma StripKeepsShape(collapsed: string, stripped: string, k: nat)
    requires forall i :: 0 <= i < |collapsed| ==> IsAsciiAlnum(collapsed[i]) || collapsed[i] == '_'
    requires NoDoubleUnderscore(collapsed)
    requires k + |stripped| <= |collapsed| && stripped == collapsed[k..k + |stripped|]
    requires stripped == [] || (stripped[0] != '_' && stripped[|stripped| - 1] != '_')
    ensures forall i :: 0 <= i < |stripped| ==> IsAsciiAlnum(stripped[i]) || stripped[i] == '_'
    ensures NoDoubleUnderscore(stripped)
    ensures stripped != [] ==> IsAsciiAlnum(stripped[0]) && IsAsciiAlnum(stripped[|stripped| - 1])
    ensures stripped == [] <==> Alnums(stripped) == []
  {
    forall i, j | 0 <= i < j < |stripped| && j == i + 1 ensures !(stripped[i] == '_' && stripped[j] == '_') {
      assert stripped[i] == collapsed[k + i] && stripped[j] == collapsed[k + j];
    }
    forall i | 0 <= i < |stripped| ensures IsAsciiAlnum(stripped[i]) || stripped[i] == '_' {
      assert stripped[i] == collapsed[k + i];
    }
    if stripped != [] {
      assert IsAsciiAlnum(stripped[0]);
      assert stripped == [stripped[0]] + stripped[1..];
    }
  }

  /** Lower-casing a string of letters, digits and underscores keeps its shape
      and leaves only `[a-z0-9_]`. */
  lemma LowerKeepsShape(stripped: string, lowered: string)
    requires forall i :: 0 <= i < |stripped| ==> IsAsciiAlnum(stripped[i]) || stripped[i] == '_'
    requires NoDoubleUnderscore(stripped)
    requires stripped != [] ==> IsAsciiAlnum(stripped[0]) && IsAsciiAlnum(stripped[|stripped| - 1])
    requires |lowered| == |stripped| && forall i :: 0 <= i < |stripped| ==> lowered[i] == LowerChar(stripped[i])
    ensures lowered != [] ==> IsCleanFileName(lowered)
  {
  }

  /** Trimming drops only white space, never a letter or digit. */
  lemma TrimKeepsAlnums(name: string, trimmed: string)
    requires trimmed == Trim(name)
    ensures Alnums(trimmed) == Alnums(name)
  {
    var k := LeadingWhitespace(name);
    var n := |trimmed|;
    assert k + n <= |name| && AllWhitespace(name[..k]) && AllWhitespace(name[k + n..]);
    WhitespaceAroundKeepsAlnums(name, k, n);
    assert name[k..k + n] == trimmed;
  }

  lemma WhitespaceAroundKeepsAlnums(s: string, k: nat, n: nat)
    requires k + n <= |s| && AllWhitespace(s[..k]) && AllWhitespace(s[k + n..])
    ensures Alnums(s[k..k + n]) == Alnums(s)
  {
    var t := s[k..];
    AlnumsOfWhitespace(s[..k]);
    AlnumsOfSuffix(s, k);
    assert t[n..] == s[k + n..] && t[..n] == s[k..k + n];
    AlnumsOfWhitespace(t[n..]);
    AlnumsOfPrefix(t, n);
  }

  /** Cutting off a prefix without letters or digits keeps them all. */
  lemma AlnumsOfSuffix(s: string, n: nat)
    requires n <= |s|
    requires Alnums(s[..n]) == []
    ensures Alnums(s[n..]) == Alnums(s)
  {
    assert s == s[..n] + s[n..];
    AlnumsConcat(s[..n], s[n..]);
  }

  /** Cutting off a suffix without letters or digits keeps them all. */
  lemma AlnumsOfPrefix(s: string, n: nat)
    requires n <= |s|
    requires Alnums(s[n..]) == []
    ensures Alnums(s[..n]) == Alnums(s)
  {
    assert s == s[..n] + s[n..];
    AlnumsConcat(s[..n], s[n..]);
  }

  lemma AlnumsOfWhitespace(s: string)
    requires AllWhitespace(s)
    ensures Alnums(s) == []
  {
    forall i | 0 <= i < |s| ensures !IsAsciiAlnum(s[i]) {
      assert IsWhitespace(s[i]);
    }
    AlnumsOfNone(s);
  }

  /** Stripping underscores drops no letter or digit. */
  lemma StripKeepsAlnums(s: string, r: string)
    requires r == StripUnderscores(s)
    ensures Alnums(r) == Alnums(s)
  {
    var k := LeadingUnderscores(s);
    var t := s[k..];
    AlnumsOfUnderscores(s[..k]);
    AlnumsOfSuffix(s, k);
    assert t[|r|..] == s[k + |r|..] && t[..|r|] == r;
    AlnumsOfUnderscores(t[|r|..]);
    AlnumsOfPrefix(t, |r|);
  }

  lemma AlnumsOfUnderscores(s: string)
    requires forall i :: 0 <= i < |s| ==> s[i] == '_'
    ensures Alnums(s) == []
  {
    AlnumsOfNone(s);
  }

  /** Lower-casing commutes with keeping the letters and digits. */
  lemma {:induction false} LowerKeepsAlnums(s: string)
    ensures Alnums(LowerCase(s)) == LowerCase(Alnums(s))
    decreases |s|
  {
    if s != [] {
      LowerKeepsAlnums(s[1..]);
      assert LowerCase(s)[1..] == LowerCase(s[1..]);
      if IsAsciiAlnum(s[0]) {
        assert LowerCase([s[0]] + Alnums(s[1..])) == [LowerChar(s[0])] + LowerCase(Alnums(s[1..]));
      }
    }
  }

  /** A clean file name passes through every step unchanged. */
  lemma SanitizeCleanIsIdentity(s: string)
    requires IsCleanFileName(s)
    ensures SanitizeFileName(s) == s
  {
    CleanCollapses(s);
    assert StripUnderscores(s) == s by {
      assert LeadingUnderscores(s) == 0;
      assert TrailingUnderscores(s) == 0;
    }
    LowerOfLower(s);
  }

  /** The first two steps leave a clean name as it is. */
  lemma CleanCollapses(s: string)
    requires IsCleanFileName(s)
    ensures CollapseStep(s) == s
  {
    assert !IsWhitespace(s[0]) && !IsWhitespace(s[|s| - 1]) by {
      assert IsFileNameChar(s[0]) && IsFileNameChar(s[|s| - 1]);
    }
    TrimOfTrimmed(s);
    assert forall i :: 0 <= i < |s| ==> IsAsciiAlnum(s[i]) || s[i] == '_' by {
      forall i | 0 <= i < |s| ensures IsAsciiAlnum(s[i]) || s[i] == '_' {
        assert IsFileNameChar(s[i]);
      }
    }
    CollapseOfCollapsed(s);
  }

  lemma {:induction false} CollapseOfCollapsed(s: string)
    requires forall i :: 0 <= i < |s| ==> IsAsciiAlnum(s[i]) || s[i] == '_'
    requires NoDoubleUnderscore(s)
    ensures Collapse(s) == s
    decreases |s|
  {
    if s != [] {
      CollapseOfCollapsed(s[1..]);
      if !IsAsciiAlnum(s[0]) {
        assert s[1..] == [] || IsAsciiAlnum(s[1..][0]);
        assert SkipNonAlnum(s[1..]) == s[1..];
      }
    }
  }

  lemma LowerOfLower(s: string)
    requires forall i :: 0 <= i < |s| ==> IsFileNameChar(s[i])
    ensures LowerCase(s) == s
  {
  }

  /** `sanitizeFileName` is idempotent. */
  lemma SanitizeIdempotent(name: string)
    ensures SanitizeFileName(SanitizeFileName(name)) == SanitizeFileName(name)
  {
    SanitizeCleanIsIdentity(SanitizeFileName(name));
  }

  /** Two words of ASCII letters and digits with anything else between them
      (a space, say) come out lower-cased and joined by one '_'. */
  lemma SanitizeJoinsWords(a: string, sep: string, b: string)
    requires a != [] && forall i :: 0 <= i < |a| ==> IsAsciiAlnum(a[i])
    requires b != [] && forall i :: 0 <= i < |b| ==> IsAsciiAlnum(b[i])
    requires sep != [] && forall i :: 0 <= i < |sep| ==> !IsAsciiAlnum(sep[i])
    ensures SanitizeFileName(a + sep + b) == LowerCase(a) + "_" + LowerCase(b)
  {
    var name := a + sep + b;
    WordsCollapse(a, sep, b);
    assert CollapseStep(name) == a + "_" + b;
    JoinedIsStripped(a, b);
    LowerJoined(a, b);
    assert Lowered(name) == LowerCase(a) + "_" + LowerCase(b);
  }

  /** Two words joined by one '_' have no outer underscore to strip. */
  lemma JoinedIsStripped(a: string, b: string)
    requires a != [] && forall i :: 0 <= i < |a| ==> IsAsciiAlnum(a[i])
    requires b != [] && forall i :: 0 <= i < |b| ==> IsAsciiAlnum(b[i])
    requires forall i :: 0 <= i < |a + "_" + b| ==> IsAsciiAlnum((a + "_" + b)[i]) || (a + "_" + b)[i] == '_'
    requires NoDoubleUnderscore(a + "_" + b)
    ensures StripStep(a + "_" + b) == a + "_" + b
  {
    var joined := a + "_" + b;
    assert joined[0] == a[0] && joined[|joined| - 1] == b[|b| - 1];
    assert LeadingUnderscores(joined) == 0 && TrailingUnderscores(joined) == 0;
  }

  lemma LowerJoined(a: string, b: string)
    ensures LowerCase(a + "_" + b) == LowerCase(a) + "_" + LowerCase(b)
  {
    LowerCaseConcat(a + "_", b);
    LowerCaseConcat(a, "_");
    assert LowerCase("_") == "_";
  }

  /** The first two steps on two words: trimming keeps them, collapsing
      joins them with one '_'. */
  lemma WordsCollapse(a: string, sep: string, b: string)
    requires a != [] && forall i :: 0 <= i < |a| ==> IsAsciiAlnum(a[i])
    requires b != [] && forall i :: 0 <= i < |b| ==> IsAsciiAlnum(b[i])
    requires sep != [] && forall i :: 0 <= i < |sep| ==> !IsAsciiAlnum(sep[i])
    ensures Trim(a + sep + b) == a + sep + b
    ensures CollapseRuns(a + sep + b) == a + "_" + b
  {
    var name := a + sep + b;
    assert name[0] == a[0] && name[|name| - 1] == b[|b| - 1];
    TrimOfTrimmed(name);
    CollapseRunsSplit(a, sep, b);
    CollapseOfCollapsed(a);
    CollapseOfCollapsed(b);
  }

  lemma {:induction false} LowerCaseConcat(x: string, y: string)
    ensures LowerCase(x + y) == LowerCase(x) + LowerCase(y)
  {
    var l, r := LowerCase(x + y), LowerCase(x) + LowerCase(y);
    assert |l| == |r|;
    forall i | 0 <= i < |l| ensures l[i] == r[i] {
      if i < |x| { assert (x + y)[i] == x[i]; } else { assert (x + y)[i] == y[i - |x|]; }
    }
  }

  /** `url.split('?')[0]`: everything before the first '?'. */
  function BeforeQuery(url: string): (r: string)
    ensures '?' !in r && r <= url
    ensures |r| < |url| ==> url[|r|] == '?'
  {
    if url == [] || url[0] == '?' then [] else [url[0]] + BeforeQuery(url[1..])
  }

  /** `path.split('.').pop()`: the part after the last '.', or the whole path
      when it has no '.'. */
  function AfterLastDot(path: string): (r: string)
    ensures '.' !in r && |r| <= |path| && r == path[|path| - |r|..]
    ensures |r| < |path| ==> path[|path| - |r| - 1] == '.'
  {
    if path == [] || path[|path| - 1] == '.' then []
    else
      var r := AfterLastDot(path[..|path| - 1]) + [path[|path| - 1]];
      assert path == path[..|path| - 1] + [path[|path| - 1]];
      r
  }

  const DefaultExtension: string := "mp3"

  /** `getExtensionFromUrl`: the last '.'-separated segment of the URL's path
      (the part before any '?', the whole path when it has no '.') when it
      is one to four UTF-16 code units long, and "mp3" otherwise. */
  function ExtensionFromUrl(url: string): (r: string)
    ensures 1 <= |r| <= 4 && 1 <= Utf16Length(r) <= 4 && '.' !in r && '?' !in r
    ensures var e := AfterLastDot(BeforeQuery(url));
      && (1 <= Utf16Length(e) <= 4 ==> r == e)
      && (!(1 <= Utf16Length(e) <= 4) ==> r == DefaultExtension)
  {
    var ext := AfterLastDot(BeforeQuery(url));
    if 1 <= Utf16Length(ext) <= 4 then
      SegmentIsExtension(url);
      ext
    else
      DefaultExtensionLength();
      DefaultExtension
  }

  /** A short last segment has the shape of an extension. */
  lemma SegmentIsExtension(url: string)
    requires 1 <= Utf16Length(AfterLastDot(BeforeQuery(url))) <= 4
    ensures var p := BeforeQuery(url);
      var e := AfterLastDot(p);
      && 1 <= |e| <= 4 && '.' !in e && '?' !in e
      && |e| <= |p| && e == p[|p| - |e|..] && (|e| < |p| ==> p[|p| - |e| - 1] == '.')
  {
    NoQueryInSegment(url);
  }

  /** The last segment of the part before any '?' has no '?'. */
  lemma NoQueryInSegment(url: string)
    ensures '?' !in AfterLastDot(BeforeQuery(url))
  {
    var p := BeforeQuery(url);
    var e := AfterLastDot(p);
    NotInSuffix(p, |p| - |e|, '?');
  }

  lemma NotInSuffix<T>(p: seq<T>, k: nat, c: T)
    requires k <= |p| && c !in p
    ensures c !in p[k..]
  {
    forall i | 0 <= i < |p| - k ensures p[k..][i] != c {
      assert p[k..][i] == p[k + i];
    }
  }

  lemma DefaultExtensionLength()
    ensures Utf16Length(DefaultExtension) == 3
    ensures |DefaultExtension| == 3 && '.' !in DefaultExtension && '?' !in DefaultExtension
  {
    var d := DefaultExtension;
    assert forall i :: 0 <= i < |d| ==> (d[i] as int) < 0x1_0000;
    Utf16LengthOfBmp(d);
  }

  /** Reading the extension back: a URL "<base>.<ext>" or "<base>.<ext>?<query>"
      yields `ext` when it has one to four code units and no '.' or '?'. */
  lemma ExtensionFromUrlRoundTrip(base: string, ext: string, query: string)
    requires '?' !in base && '?' !in ext && '.' !in ext && 1 <= Utf16Length(ext) <= 4
    requires query == [] || query[0] == '?'
    ensures ExtensionFromUrl(base + "." + ext + query) == ext
  {
    var path := base + "." + ext;
    BeforeQueryOfPrefix(path, query);
    AfterLastDotOfSuffix(base, ext);
  }

  /** A path without '.' or '?' is its own last segment. */
  lemma ExtensionOfPlain(path: string)
    requires '?' !in path && '.' !in path
    ensures ExtensionFromUrl(path) == if 1 <= Utf16Length(path) <= 4 then path else DefaultExtension
  {
    var p := BeforeQuery(path);
    assert p == path;
    AfterLastDotOfPlain(path);
  }

  lemma {:induction false} AfterLastDotOfPlain(path: string)
    requires '.' !in path
    ensures AfterLastDot(path) == path
    decreases |path|
  {
    if path != [] {
      var front := path[..|path| - 1];
      assert path[|path| - 1] in path;
      assert forall c :: c in front ==> c in path;
      AfterLastDotOfPlain(front);
      assert path == front + [path[|path| - 1]];
    }
  }

  /** Length counts UTF-16 code units: two characters outside the Basic
      Multilingual Plane (two emoji, say) are four units and still pass,
      but with one more letter they are five and fall back to "mp3". */
  lemma ExtensionCountsCodeUnits(base: string, c: char)
    requires '?' !in base && (c as int) >= 0x1_0000
    ensures ExtensionFromUrl(base + "." + [c, c]) == [c, c]
    ensures ExtensionFromUrl(base + "." + ("b" + [c, c])) == DefaultExtension
  {
    assert Utf16Length([c, c]) == 4 by {
      assert [c, c][1..] == [c];
      assert [c][1..] == [];
    }
    assert Utf16Length("b" + [c, c]) == 5 by {
      assert ("b" + [c, c])[1..] == [c, c];
    }
    ExtensionOf(base, [c, c]);
    ExtensionOf(base, "b" + [c, c]);
  }

  /** The extension of a query-free "<base>.<ext>" path is decided by `ext` alone. */
  lemma ExtensionOf(base: string, ext: string)
    requires '?' !in base && '?' !in ext && '.' !in ext
    ensures ExtensionFromUrl(base + "." + ext) == if 1 <= Utf16Length(ext) <= 4 then ext else DefaultExtension
  {
    var url := base + "." + ext;
    assert url + [] == url;
    BeforeQueryOfPrefix(url, []);
    AfterLastDotOfSuffix(base, ext);
  }

  lemma {:induction false} BeforeQueryOfPrefix(path: string, query: string)
    requires '?' !in path && (query == [] || query[0] == '?')
    ensures BeforeQuery(path + query) == path
    decreases |path|
  {
    if path != [] {
      assert (path + query)[1..] == path[1..] + query;
      BeforeQueryOfPrefix(path[1..], query);
    }
  }

  lemma {:induction false} AfterLastDotOfSuffix(base: string, ext: string)
    requires '.' !in ext
    ensures AfterLastDot(base + "." + ext) == ext
    decreases |ext|
  {
    var p := base + "." + ext;
    if ext != [] {
      var e' := ext[..|ext| - 1];
      assert p[..|p| - 1] == base + "." + e';
      AfterLastDotOfSuffix(base, e');
      assert ext == e' + [ext[|ext| - 1]];
    } else {
      assert p[|p| - 1] == '.';
    }
  }

  const DownloadSuffix: string := "_soundwave_by_dhyey."

  /** `downloadSongFile` up to the browser hand-off: a song without a URL
      fails before any fetch; a failed fetch fails; otherwise the name is a
      clean stem (the sanitised title, or "track" when there is none), the
      fixed suffix and the URL's extension. `fetchOk` stands for the outcome
      of fetching the URL. */
  function DownloadName(song: Song, fetchOk: bool): (r: Result<string, string>)
    ensures song.url == [] ==> r == Err("Song URL is missing.")
    ensures song.url != [] && !fetchOk ==> r == Err("Unable to download this track right now.")
    ensures song.url != [] && fetchOk ==> r.Ok?
    ensures r.Ok? ==> NameShape(r.value, ExtensionFromUrl(song.url))
    ensures r.Ok? ==> r.value == SanitizeFileName(OrElse(song.title, "track")) + DownloadSuffix + ExtensionFromUrl(song.url)
  {
    if song.url == [] then Err("Song URL is missing.")
    else if !fetchOk then Err("Unable to download this track right now.")
    else
      var stem := SanitizeFileName(OrElse(song.title, "track"));
      var ext := ExtensionFromUrl(song.url);
      JoinShape(stem, ext);
      Ok(stem + DownloadSuffix + ext)
  }

  ghost predicate NameShape(name: string, ext: string) {
    var n := |name| - |DownloadSuffix| - |ext|;
    n > 0 && IsCleanFileName(name[..n]) && name[n..] == DownloadSuffix + ext
  }

  lemma JoinShape(stem: string, ext: string)
    requires IsCleanFileName(stem)
    ensures NameShape(stem + DownloadSuffix + ext, ext)
  {
    var name := stem + DownloadSuffix + ext;
    assert name[..|stem|] == stem;
    assert name[|stem|..] == DownloadSuffix + ext;
  }
  /** A song without a title is saved as "track_soundwave_by_dhyey.<ext>". */
  lemma DownloadNameUntitled(song: Song)
    requires song.url != [] && song.title == []
    ensures DownloadName(song, true) == Ok("track" + DownloadSuffix + ExtensionFromUrl(song.url))
  {
    assert IsCleanFileName("track");
    SanitizeCleanIsIdentity("track");
  }

  /** The saved file's own extension, read back from its name, is the one
      taken from the song's URL. */
  lemma DownloadNameKeepsExtension(song: Song)
    requires song.url != []
    ensures DownloadName(song, true).Ok?
    ensures ExtensionFromUrl(DownloadName(song, true).value) == ExtensionFromUrl(song.url)
  {
    var ext := ExtensionFromUrl(song.url);
    NameShapeExtension(DownloadName(song, true).value, ext);
  }

  /** A name of the download shape reads back its own extension. */
  lemma NameShapeExtension(name: string, ext: string)
    requires NameShape(name, ext)
    requires '?' !in ext && '.' !in ext && 1 <= Utf16Length(ext) <= 4
    ensures ExtensionFromUrl(name) == ext
  {
    var n := |name| - |DownloadSuffix| - |ext|;
    var stem := name[..n];
    assert name == stem + DownloadSuffix + ext;
    ExtensionOfStem(stem, ext);
  }

  lemma ExtensionOfStem(stem: string, ext: string)
    requires IsCleanFileName(stem)
    requires '?' !in ext && '.' !in ext && 1 <= Utf16Length(ext) <= 4
    ensures ExtensionFromUrl(stem + DownloadSuffix + ext) == ext
  {
    SuffixAtDot(stem, ext);
    NoQueryInBase(stem);
    ExtensionOf(stem + "_soundwave_by_dhyey", ext);
  }

  lemma NoQueryInBase(stem: string)
    requires IsCleanFileName(stem)
    ensures '?' !in stem + "_soundwave_by_dhyey"
  {
    var base := stem + "_soundwave_by_dhyey";
    forall i | 0 <= i < |base| ensures base[i] != '?' {
      if i < |stem| {
        assert IsFileNameChar(stem[i]);
      }
    }
  }

  /** The download suffix ends in the '.' before the extension. */
  lemma SuffixAtDot(stem: string, ext: string)
    ensures stem + DownloadSuffix + ext == (stem + "_soundwave_by_dhyey") + "." + ext
  {
    assert DownloadSuffix == "_soundwave_by_dhyey" + ".";
    ConcatAssoc(stem, "_soundwave_by_dhyey", ".");
  }
}
