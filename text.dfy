/** Byte-string primitives the converter takes from Go's `bytes` and `strings`
    packages.  A byte string is a `string`; each char stands for one byte. */
module Text {

  datatype Option<T> = None | Some(value: T)

  predicate StartsWith(s: string, p: string) {
    |p| <= |s| && s[..|p|] == p
  }

  /** A text whose first byte differs from that of `p` does not start with `p`. */
  lemma FirstByteDiffers(s: string, p: string)
    requires s != [] && p != [] && s[0] != p[0]
    ensures !StartsWith(s, p)
  {
    if |p| <= |s| {
      assert s[..|p|][0] != p[0];
    }
  }

  predicate EndsWith(s: string, p: string) {
    |p| <= |s| && s[|s| - |p|..] == p
  }

  /** `p` occurs in `s` at index `i`, byte by byte. */
  predicate OccursAt(s: string, p: string, i: int)
    decreases |p|
  {
    0 <= i && i + |p| <= |s| && (|p| == 0 || (s[i] == p[0] && OccursAt(s, p[1..], i + 1)))
  }

  /** `p` occurs at `i` exactly when the slice of `s` there is `p`. */
  lemma {:induction false} OccursAtSlice(s: string, p: string, i: nat)
    ensures OccursAt(s, p, i) <==> i + |p| <= |s| && s[i..i + |p|] == p
    decreases |p|
  {
    if |p| > 0 && i + |p| <= |s| {
      OccursAtSlice(s, p[1..], i + 1);
      var w := s[i..i + |p|];
      assert w == [s[i]] + s[i + 1..i + 1 + |p[1..]|];
      assert p == [p[0]] + p[1..];
    }
  }

  /** First index at or after `from` where `p` occurs (`bytes.Index`). */
  function IndexFrom(s: string, p: string, from: nat): (r: Option<nat>)
    ensures r.Some? ==> from <= r.value && OccursAt(s, p, r.value)
    ensures r.Some? ==> forall j :: from <= j < r.value ==> !OccursAt(s, p, j)
    ensures r.None? ==> forall j :: from <= j ==> !OccursAt(s, p, j)
    decreases |s| - from
  {
    if from + |p| > |s| then None
    else if OccursAt(s, p, from) then Some(from)
    else IndexFrom(s, p, from + 1)
  }

  /** `bytes.Contains`. */
  predicate Contains(s: string, p: string) {
    IndexFrom(s, p, 0).Some?
  }

  /** Index of the last occurrence of `c` (`bytes.LastIndex` with a one-byte separator). */
  function LastIndexOf(s: string, c: char): (r: Option<nat>)
    ensures r.Some? ==> r.value < |s| && s[r.value] == c
    ensures r.Some? ==> forall j :: r.value < j < |s| ==> s[j] != c
    ensures r.None? ==> forall j :: 0 <= j < |s| ==> s[j] != c
  {
    if |s| == 0 then None
    else if s[|s| - 1] == c then Some(|s| - 1)
    else LastIndexOf(s[..|s| - 1], c)
  }

  /** `bytes.Replace(s, old, new, 1)`: the first occurrence of `pat` replaced by `repl`, or `s` unchanged. */
  function ReplaceFirst(s: string, pat: string, repl: string): string {
    match IndexFrom(s, pat, 0)
    case None => s
    case Some(k) => ReplaceAt(s, k, |pat|, repl)
  }

  /** The `n` bytes at `k` replaced by `repl`. */
  function ReplaceAt(s: string, k: nat, n: nat, repl: string): (r: string)
    requires k + n <= |s|
    ensures |r| == |s| - n + |repl|
  {
    s[..k] + repl + s[k + n..]
  }

  /** `strings.ReplaceAll` for a non-empty `pat`: leftmost, non-overlapping occurrences. */
  function ReplaceAll(s: string, pat: string, repl: string): string
    requires |pat| > 0
  {
    if |s| < |pat| then s
    else if s[..|pat|] == pat then repl + ReplaceAll(s[|pat|..], pat, repl)
    else [s[0]] + ReplaceAll(s[1..], pat, repl)
  }

  /** Before a text free of the first byte of `pat`, `pat` itself is its first occurrence. */
  lemma ReplaceFirstAfter(a: string, pat: string, b: string, repl: string)
    requires pat != [] && forall i :: 0 <= i < |a| ==> a[i] != pat[0]
    ensures ReplaceFirst(a + pat + b, pat, repl) == a + repl + b
  {
    var s := a + pat + b;
    assert OccursAt(s, pat, |a|) by {
      assert s[|a|..|a| + |pat|] == pat;
      OccursAtSlice(s, pat, |a|);
    }
    forall j | 0 <= j < |a|
      ensures !OccursAt(s, pat, j)
    {
      assert s[j] == a[j];
    }
    var r := IndexFrom(s, pat, 0);
    assert r == Some(|a|);
    assert s[..|a|] == a && s[|a| + |pat|..] == b;
  }

  /** Occurrences in `a + t` from `|a|` on are the occurrences in `t`, moved by `|a|`. */
  lemma OccursAtShift(a: string, t: string, pat: string, j: nat)
    ensures OccursAt(a + t, pat, |a| + j) <==> OccursAt(t, pat, j)
  {
    var s := a + t;
    OccursAtSlice(s, pat, |a| + j);
    OccursAtSlice(t, pat, j);
    if j + |pat| <= |t| {
      assert s[|a| + j..|a| + j + |pat|] == t[j..j + |pat|];
    }
  }

  /** Nothing starting with `pat[0]` occurs in a text free of that byte. */
  lemma NoOccurrenceBefore(a: string, t: string, pat: string)
    requires pat != [] && forall i :: 0 <= i < |a| ==> a[i] != pat[0]
    ensures forall j :: 0 <= j < |a| ==> !OccursAt(a + t, pat, j)
  {
    var s := a + t;
    forall j | 0 <= j < |a|
      ensures !OccursAt(s, pat, j)
    {
      assert s[j] == a[j];
    }
  }

  /** In front of a text free of the first byte of `pat`, the first occurrence of
      `pat` is the first occurrence in what follows, moved by the length of the front. */
  lemma IndexFromPrefix(a: string, t: string, pat: string)
    requires pat != [] && forall i :: 0 <= i < |a| ==> a[i] != pat[0]
    ensures IndexFrom(a + t, pat, 0) ==
      match IndexFrom(t, pat, 0) case None => None case Some(k) => Some(|a| + k)
  {
    NoOccurrenceBefore(a, t, pat);
    match IndexFrom(t, pat, 0)
    case None => IndexFromPrefixNone(a, t, pat);
    case Some(k) => IndexFromPrefixSome(a, t, pat, k);
  }

  lemma IndexFromPrefixNone(a: string, t: string, pat: string)
    requires IndexFrom(t, pat, 0).None?
    requires forall j :: 0 <= j < |a| ==> !OccursAt(a + t, pat, j)
    ensures IndexFrom(a + t, pat, 0).None?
  {
    var r := IndexFrom(a + t, pat, 0);
    if r.Some? {
      assert r.value >= |a|;
      OccursAtShift(a, t, pat, r.value - |a|);
    }
  }

  lemma IndexFromPrefixSome(a: string, t: string, pat: string, k: nat)
    requires IndexFrom(t, pat, 0) == Some(k)
    requires forall j :: 0 <= j < |a| ==> !OccursAt(a + t, pat, j)
    ensures IndexFrom(a + t, pat, 0) == Some(|a| + k)
  {
    var r := IndexFrom(a + t, pat, 0);
    OccursAtShift(a, t, pat, k);
    assert r.Some? && r.value <= |a| + k;
    assert r.value >= |a|;
    if r.value < |a| + k {
      OccursAtShift(a, t, pat, r.value - |a|);
    }
  }

  /** In front of a text free of the first byte of `pat`, `ReplaceFirst` acts on
      what follows. */
  lemma ReplaceFirstPrefix(a: string, t: string, pat: string, repl: string)
    requires pat != [] && forall i :: 0 <= i < |a| ==> a[i] != pat[0]
    ensures ReplaceFirst(a + t, pat, repl) == a + ReplaceFirst(t, pat, repl)
  {
    IndexFromPrefix(a, t, pat);
    if IndexFrom(t, pat, 0).Some? {
      ReplaceAtShift(a, t, pat, repl, IndexFrom(t, pat, 0).value);
    }
  }

  lemma ReplaceAtShift(a: string, t: string, pat: string, repl: string, k: nat)
    requires IndexFrom(t, pat, 0) == Some(k) && IndexFrom(a + t, pat, 0) == Some(|a| + k)
    ensures ReplaceFirst(a + t, pat, repl) == a + ReplaceFirst(t, pat, repl)
  {
    ReplaceAtPrefix(a, t, k, |pat|, repl);
  }

  /** A replacement past a prefix leaves the prefix alone. */
  lemma ReplaceAtPrefix(a: string, t: string, k: nat, n: nat, repl: string)
    requires k + n <= |t|
    ensures ReplaceAt(a + t, |a| + k, n, repl) == a + ReplaceAt(t, k, n, repl)
  {
    var s, x, y := a + t, t[..k], t[k + n..];
    assert s[..|a| + k] == a + x && s[|a| + k + n..] == y;
    assert a + x + repl + y == a + (x + repl + y);
  }

  /** `bytes.TrimSuffix`. */
  function TrimSuffix(s: string, suffix: string): string {
    if EndsWith(s, suffix) then s[..|s| - |suffix|] else s
  }

  /** ASCII white space as `bytes.TrimSpace` sees it. */
  predicate IsSpace(c: char) {
    c == ' ' || c == '\t' || c == '\n' || c == '\U{0B}' || c == '\U{0C}' || c == '\r'
  }

  predicate AllSpace(s: string) {
    forall i :: 0 <= i < |s| ==> IsSpace(s[i])
  }

  /** `s` without its leading white space: a suffix of `s`, what is cut is white
      space, and what is left does not start with it. */
  function TrimLeft(s: string): (r: string)
    ensures |r| <= |s| && r == s[|s| - |r|..] && AllSpace(s[..|s| - |r|])
    ensures r != [] ==> !IsSpace(r[0])
  {
    if |s| > 0 && IsSpace(s[0]) then
      var r := TrimLeft(s[1..]);
      assert s[..|s| - |r|] == [s[0]] + s[1..][..|s| - 1 - |r|];
      r
    else s
  }

  /** `s` without its trailing white space. */
  function TrimRight(s: string): (r: string)
    ensures |r| <= |s| && r == s[..|r|] && AllSpace(s[|r|..])
    ensures r != [] ==> !IsSpace(r[|r| - 1])
  {
    if |s| > 0 && IsSpace(s[|s| - 1]) then
      var r := TrimRight(s[..|s| - 1]);
      assert s[|r|..] == s[..|s| - 1][|r|..] + [s[|s| - 1]];
      r
    else s
  }

  /** `bytes.TrimSpace`, for ASCII white space. */
  function TrimSpace(s: string): string {
    TrimRight(TrimLeft(s))
  }

  /** Leading white space is what `TrimLeft` removes. */
  lemma {:induction false} TrimLeftSpaces(lead: string, x: string)
    requires AllSpace(lead)
    ensures TrimLeft(lead + x) == TrimLeft(x)
    decreases |lead|
  {
    if lead != [] {
      assert (lead + x)[1..] == lead[1..] + x;
      TrimLeftSpaces(lead[1..], x);
    } else {
      assert lead + x == x;
    }
  }

  /** Trailing white space is what `TrimRight` removes. */
  lemma {:induction false} TrimRightSpaces(x: string, trail: string)
    requires AllSpace(trail)
    ensures TrimRight(x + trail) == TrimRight(x)
    decreases |trail|
  {
    if trail != [] {
      var t := trail[..|trail| - 1];
      assert (x + trail)[..|x + trail| - 1] == x + t;
      TrimRightSpaces(x, t);
    } else {
      assert x + trail == x;
    }
  }

  /** White space around a text that neither starts nor ends with white space is
      exactly what `TrimSpace` removes. */
  lemma TrimSpaceAround(lead: string, core: string, trail: string)
    requires AllSpace(lead) && AllSpace(trail)
    requires core != [] && !IsSpace(core[0]) && !IsSpace(core[|core| - 1])
    ensures TrimSpace(lead + core + trail) == core
  {
    assert lead + core + trail == lead + (core + trail);
    TrimLeftSpaces(lead, core + trail);
    assert (core + trail)[0] == core[0];
    TrimRightSpaces(core, trail);
  }

  predicate NoNewline(s: string) {
    forall i :: 0 <= i < |s| ==> s[i] != '\n'
  }

  /** Drops one trailing carriage return. */
  function StripCR(s: string): string {
    if |s| > 0 && s[|s| - 1] == '\r' then s[..|s| - 1] else s
  }

  /** Two adjacent slices make up the slice spanning both. */
  lemma SliceSplit(s: string, i: nat, j: nat, l: nat)
    requires i <= j <= l <= |s|
    ensures s[i..j] + s[j..l] == s[i..l]
  {
  }

  lemma SliceToEnd(s: string, i: nat)
    requires i <= |s|
    ensures s[i..|s|] == s[i..]
  {
  }

  /** Dropping a final '\r' brings in no '\n'. */
  lemma StripCRNoNewline(s: string)
    requires NoNewline(s)
    ensures NoNewline(StripCR(s))
  {
    if StripCR(s) != s {
      forall i | 0 <= i < |s| - 1
        ensures StripCR(s)[i] != '\n'
      {
        assert StripCR(s)[i] == s[i];
      }
    }
  }

  /** Dropping a trailing carriage return only looks at the last part of a text. */
  lemma StripCRAppend(a: string, b: string)
    requires b != []
    ensures a + StripCR(b) == StripCR(a + b)
  {
    var s := a + b;
    assert s[|s| - 1] == b[|b| - 1];
    if b[|b| - 1] == '\r' {
      assert s[..|s| - 1] == a + b[..|b| - 1];
    }
  }

  predicate IsAsciiAlnum(c: char) {
    ('a' <= c <= 'z') || ('A' <= c <= 'Z') || ('0' <= c <= '9')
  }

  /** Word separator of `bytes.Title` for ASCII; other bytes never separate words. */
  predicate IsSeparator(c: char) {
    c <= '\U{7F}' && !(IsAsciiAlnum(c) || c == '_')
  }

  function ToUpper(c: char): char {
    if 'a' <= c <= 'z' then (c as int - 32) as char else c
  }

  /** `bytes.Title` after a byte `prev`: each letter that starts a word is upper-cased. */
  function TitleAfter(s: string, prev: char): (r: string)
    ensures |r| == |s|
    ensures forall i :: 0 <= i < |s| ==>
      r[i] == if IsSeparator(if i == 0 then prev else s[i - 1]) then ToUpper(s[i]) else s[i]
  {
    if |s| == 0 then []
    else [if IsSeparator(prev) then ToUpper(s[0]) else s[0]] + TitleAfter(s[1..], s[0])
  }

  /** `bytes.Title`: the text starts a word. */
  function Title(s: string): string {
    TitleAfter(s, ' ')
  }
}
