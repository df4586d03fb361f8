/** The stateless line replacers: `unescapeParens` (through `wrapRegex` and
    `wrap`), `unescapePageRefs` and `unescapeLinks`.  Each finds every match of
    its pattern in the source line, then for each match in turn replaces the
    FIRST occurrence of the matched text in the result built so far — which is
    not always the occurrence that matched. */
module Rewriters {
  import opened Text
  import opened Paths
  import opened Patterns

  /** What a line replacer returns: a line; the line with the "not responsible"
      signal; the "skip line" signal; or an error that ends the document. */
  datatype Outcome = Ok(line: string) | NotResponsible(line: string) | Skip | Fail

  /** `wrap`: `src` between `start` and `end`. */
  function Wrap(src: string, start: string, end: string): (r: string)
    ensures StartsWith(r, start) && EndsWith(r, end)
    ensures |r| == |start| + |src| + |end| && r[|start|..|r| - |end|] == src
  {
    var r := start + src + end;
    assert r[..|start|] == start && r[|r| - |end|..] == end;
    r
  }

  /** Replacements applied in order, each to the first occurrence of its old text
      in the text produced so far (`bytes.Replace(result, old, new, 1)`). */
  function ReplaceEach(s: string, edits: seq<(string, string)>): string
    decreases |edits|
  {
    if edits == [] then s else ReplaceEach(ReplaceFirst(s, edits[0].0, edits[0].1), edits[1..])
  }

  lemma ReplaceEachSplit(s: string, e: (string, string), rest: seq<(string, string)>)
    ensures ReplaceEach(s, [e] + rest) == ReplaceEach(ReplaceFirst(s, e.0, e.1), rest)
  {
    assert ([e] + rest)[1..] == rest;
  }

  /** Every match lies within `s`, with its groups inside it. */
  predicate InText(s: string, ms: seq<Match>) {
    forall k :: 0 <= k < |ms| ==> Within(s, ms[k])
  }

  // ---------------------------------------------------------------------------
  // unescapeParens

  /** For each match, its text and the group wrapped in `start` and `end`. */
  function WrapEdits(s: string, ms: seq<Match>, start: string, end: string): (edits: seq<(string, string)>)
    requires InText(s, ms)
    ensures |edits| == |ms|
    ensures forall k :: 0 <= k < |ms| ==> edits[k] == (Whole(s, ms[k]), Wrap(Group1(s, ms[k]), start, end))
    decreases |ms|
  {
    if ms == [] then []
    else [(Whole(s, ms[0]), Wrap(Group1(s, ms[0]), start, end))] + WrapEdits(s, ms[1..], start, end)
  }

  /** `wrapRegex`: every match of `p` in `src` replaced by its first group between
      `start` and `end`. */
  method WrapRegex(p: Pattern, src: string, start: string, end: string) returns (result: string)
    ensures result == ReplaceEach(src, WrapEdits(src, FindAll(p, src, 0), start, end))
  {
    result := src;
    var ms := FindAll(p, src, 0);
    ghost var edits := WrapEdits(src, ms, start, end);
    var k := 0;
    while k < |ms|
      invariant 0 <= k <= |ms|
      invariant ReplaceEach(result, edits[k..]) == ReplaceEach(src, edits)
    {
      var m := ms[k];
      var e := (Whole(src, m), Wrap(Group1(src, m), start, end));
      assert edits[k..] == [e] + edits[k + 1..];
      ReplaceEachSplit(result, e, edits[k + 1..]);
      result := ReplaceFirst(result, e.0, e.1);
      k := k + 1;
    }
    assert edits[k..] == [];
  }

  /** The line `unescapeParens` produces: every `\(x\)` becomes `(x)`. */
  function UnescapedParens(s: string): string {
    ReplaceEach(s, WrapEdits(s, FindAll(EscapedParens, s, 0), "(", ")"))
  }

  /** `unescapeParens`: never fails. */
  method UnescapeParens(line: string) returns (r: Outcome)
    ensures r == Ok(UnescapedParens(line))
  {
    var result := WrapRegex(EscapedParens, line, "(", ")");
    return Ok(result);
  }

  // ---------------------------------------------------------------------------
  // unescapePageRefs

  const RefPrefix := "> Reference: "

  /** The title of a page reference: the part after the last '/' (unless the '/'
      ends the target), without ".md", with its words capitalised. */
  function RefTitle(target: string): string {
    var name := match LastIndexOf(target, '/')
      case Some(k) => if |target| - 1 > k then target[k + 1..] else target
      case None => target;
    Title(TrimSuffix(name, MarkdownSuffix))
  }

  /** What a reference to `target` becomes: a quoted link. */
  function RefLink(target: string): string {
    RefPrefix + "[" + RefTitle(target) + "]" + "(" + target + ")"
  }

  function RefEdits(s: string, ms: seq<Match>): (edits: seq<(string, string)>)
    requires InText(s, ms)
    ensures |edits| == |ms|
    ensures forall k :: 0 <= k < |ms| ==> edits[k] == (Whole(s, ms[k]), RefLink(Group1(s, ms[k])))
    decreases |ms|
  {
    if ms == [] then []
    else [(Whole(s, ms[0]), RefLink(Group1(s, ms[0])))] + RefEdits(s, ms[1..])
  }

  /** The line `unescapePageRefs` produces. */
  function UnescapedPageRefs(s: string): string {
    ReplaceEach(s, RefEdits(s, FindAll(PageRef, s, 0)))
  }

  /** `unescapePageRefs`: never fails. */
  method UnescapePageRefs(src: string) returns (r: Outcome)
    ensures r == Ok(UnescapedPageRefs(src))
  {
    var ms := FindAll(PageRef, src, 0);
    var result := ReplaceRefs(src, ms);
    return Ok(result);
  }

  /** The loop of `unescapePageRefs` over the matches `ms` of `src`: each match
      replaced, at its first occurrence in the result so far, by its link. */
  method ReplaceRefs(src: string, ms: seq<Match>) returns (result: string)
    requires InText(src, ms)
    ensures result == ReplaceEach(src, RefEdits(src, ms))
  {
    result := src;
    var k := 0;
    while k < |ms|
      invariant 0 <= k <= |ms|
      invariant ReplaceEach(result, RefEdits(src, ms[k..])) == ReplaceEach(src, RefEdits(src, ms))
    {
      var m := ms[k];
      assert ms[k..] == [m] + ms[k + 1..];
      ReplaceEachSplit(result, (Whole(src, m), RefLink(Group1(src, m))), RefEdits(src, ms[k + 1..]));
      result := ReplaceFirst(result, Whole(src, m), RefLink(Group1(src, m)));
      k := k + 1;
    }
  }

  // ---------------------------------------------------------------------------
  // unescapeLinks

  const HttpPrefix := "http"

  /** What one link match asks for: nothing (an http target), a replacement, or
      the error of a page link without a title. */
  datatype LinkStep = Leave | Replace(pat: string, repl: string) | MissingTitle

  function LinkStepOf(s: string, m: Match, wikiRepo: string): LinkStep
    requires Within(s, m)
  {
    var target := Group2(s, m);
    if StartsWith(target, HttpPrefix) then Leave
    else
      var link := ResolveLink(target, false, wikiRepo);
      if !EndsWith(target, MarkdownSuffix) then Replace(target, link)
      else if Group1(s, m) == [] then MissingTitle
      else Replace(Whole(s, m), "[[" + Group1(s, m) + "|" + link + "]]")
  }

  /** The link steps of `ms` applied to `result` in order; None at the first
      page link without a title. */
  function ApplyLinkSteps(result: string, s: string, ms: seq<Match>, wikiRepo: string): Option<string>
    requires InText(s, ms)
    decreases |ms|
  {
    if ms == [] then Some(result)
    else match LinkStepOf(s, ms[0], wikiRepo)
      case Leave => ApplyLinkSteps(result, s, ms[1..], wikiRepo)
      case Replace(o, n) => ApplyLinkSteps(ReplaceFirst(result, o, n), s, ms[1..], wikiRepo)
      case MissingTitle => None
  }

  /** The outcome of `unescapeLinks`. */
  function UnescapedLinks(keepLinks: bool, wikiRepo: string, s: string): (r: Outcome)
    ensures r.Ok? || r.Fail?
    ensures keepLinks ==> r == Ok(s)
  {
    if keepLinks then Ok(s)
    else match ApplyLinkSteps(s, s, FindAll(Link, s, 0), wikiRepo)
      case Some(result) => Ok(result)
      case None => Fail
  }

  /** `unescapeLinks`: wiki links for page links, absolute links for assets. */
  method UnescapeLinks(keepLinks: bool, wikiRepo: string, src: string) returns (r: Outcome)
    ensures r == UnescapedLinks(keepLinks, wikiRepo, src)
  {
    if keepLinks {
      return Ok(src);
    }
    var result := src;
    var ms := FindAll(Link, src, 0);
    var k := 0;
    while k < |ms|
      invariant 0 <= k <= |ms|
      invariant ApplyLinkSteps(result, src, ms[k..], wikiRepo) == ApplyLinkSteps(src, src, ms, wikiRepo)
    {
      var m := ms[k];
      assert ms[k..][1..] == ms[k + 1..];
      var target := Group2(src, m);
      if StartsWith(target, HttpPrefix) {
        k := k + 1;
        continue;
      }
      var link := ResolveLink(target, false, wikiRepo);
      if !EndsWith(target, MarkdownSuffix) {
        result := ReplaceFirst(result, target, link);
        k := k + 1;
        continue;
      }
      var title := Group1(src, m);
      if |title| == 0 {
        return Fail;
      }
      result := ReplaceFirst(result, Whole(src, m), "[[" + title + "|" + link + "]]");
      k := k + 1;
    }
    return Ok(result);
  }
}
