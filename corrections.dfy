/** Where the code does something other than what its own comments describe
    (main.go:353, 485, 496-503): for each case, the behaviour as intended, with the property
    the code misses proved about it, next to a lemma that shows the code as
    written missing it.  The rest of the model follows the code; `Intended`
    puts these definitions together into the `parse` that was meant. */
module Corrections {
  import opened Text
  import opened Paths
  import PathExamples
  import opened LineReader
  import opened Patterns
  import opened Layout
  import opened Rewriters
  import opened RewriterProperties
  import opened Toc

  // ---------------------------------------------------------------------------
  // readLine: no line lost at the end of the stream

  /** A line prefix put in front of the line the read after it returns; when
      that read finds the stream exhausted, the prefix itself is the line. */
  function GlueKept(prefix: string, r: (ReadResult, nat)): (ReadResult, nat) {
    if r.0.Line? then (Line(prefix + r.0.line), r.1) else (Line(prefix), r.1)
  }

  /** `parser.readLine` as intended: the prefix fragments glued to the fragment
      that ends the line, or returned on their own when the stream ends first.
      The stream reports its error only once every byte has been delivered. */
  function NextLineKept(data: string, pos: nat, size: nat, tail: ReadError): (r: (ReadResult, nat))
    requires pos <= |data| && size >= MinBufSize
    ensures pos <= r.1 <= |data|
    ensures r.0.Line? ==> pos < r.1
    ensures r.0.Error? <==> pos == |data|
    ensures r.0.Error? ==> r.0.err == tail && r.1 == pos
    decreases |data| - pos
  {
    match NextFragment(data, pos, size)
    case NoBytes => (Error(tail), pos)
    case Fragment(bytes, isPrefix, next) =>
      if !isPrefix then (Line(bytes), next)
      else GlueKept(bytes, NextLineKept(data, next, size, tail))
  }

  /** Wherever the code as written returns a line, the intended reader returns
      the same line and stops at the same place. */
  lemma {:induction false} KeptAgrees(data: string, pos: nat, size: nat, tail: ReadError)
    requires pos <= |data| && size >= MinBufSize && NextLine(data, pos, size, tail).0.Line?
    ensures NextLineKept(data, pos, size, tail) == NextLine(data, pos, size, tail)
    decreases |data| - pos
  {
    var f := NextFragment(data, pos, size);
    if f.Fragment? && f.isPrefix {
      KeptAgrees(data, f.next, size, tail);
    }
  }

  /** A last line without '\n' is returned whole, whatever its length: the
      case `LineReader.FullBufferLastLineLost` shows the code losing. */
  lemma {:induction false} UnterminatedLineKept(data: string, pos: nat, size: nat, tail: ReadError)
    requires size >= MinBufSize && pos < |data| && NoNewline(data[pos..])
    ensures NextLineKept(data, pos, size, tail) == (Line(data[pos..]), |data|)
    decreases |data| - pos
  {
    var f := NextFragment(data, pos, size);
    PrefixShape(data, pos, size);
    LineShape(data, pos, size);
    if f.isPrefix {
      if f.next < |data| {
        NoNewlineWithin(data, pos, |data|, f.next, |data|);
        UnterminatedLineKept(data, f.next, size, tail);
        SliceSplit(data, pos, f.next, |data|);
        SliceToEnd(data, pos);
        SliceToEnd(data, f.next);
      } else {
        SliceToEnd(data, pos);
      }
    } else {
      assert data[f.next - 1] != '\n' by {
        assert data[pos..][f.next - 1 - pos] == data[f.next - 1];
      }
    }
  }

  // ---------------------------------------------------------------------------
  // skipNextEmptyLine: the blank line itself

  /** The line at `pos` is blank: "\n", or "\r\n". */
  predicate BlankAhead(data: string, pos: nat) {
    (pos < |data| && data[pos] == '\n') || (pos + 1 < |data| && data[pos] == '\r' && data[pos + 1] == '\n')
  }

  /** Where the reader stands after `tocEntry` when the deferred call reads away
      the next line exactly when that line is blank, whatever follows it. */
  function TocPosBlank(filename: string, data: string, tail: ReadError, pos: nat, src: string): (q: nat)
    requires pos <= |data|
    ensures pos <= q <= |data|
  {
    if SkipsNextLine(filename, src) && BlankAhead(data, pos) then NextLine(data, pos, DefaultBufSize, tail).1
    else pos
  }

  /** After a line that counts, the reader moves on exactly when the next line
      is blank, and then past that blank line and no further. */
  lemma BlankLineReadAway(filename: string, data: string, tail: ReadError, pos: nat, src: string)
    requires pos <= |data| && SkipsNextLine(filename, src)
    ensures TocPosBlank(filename, data, tail, pos, src) != pos <==> BlankAhead(data, pos)
    ensures BlankAhead(data, pos) ==>
      NextLine(data, pos, DefaultBufSize, tail).0 == Line([]) &&
      TocPosBlank(filename, data, tail, pos, src) == if data[pos] == '\n' then pos + 1 else pos + 2
  {
    if pos < |data| && data[pos] == '\n' {
      assert data[pos..pos] == [];
      LineUpToNewline(data, pos, DefaultBufSize, tail, 0);
    } else if BlankAhead(data, pos) {
      assert data[pos..pos + 1] == ['\r'];
      LineUpToNewline(data, pos, DefaultBufSize, tail, 1);
    }
  }

  /** As written, a blank "\n" line after a line that counts stays when the
      line after it is not blank. */
  lemma BlankLineKept(filename: string, data: string, tail: ReadError, pos: nat, src: string)
    requires SkipsNextLine(filename, src) && pos + 1 < |data| && data[pos] == '\n' && data[pos + 1] != '\n'
    ensures BlankAhead(data, pos)
    ensures TocPos(filename, data, tail, pos, src) == pos
  {
  }

  /** As written, a one-byte line after a line that counts is read away though
      it is not blank. */
  lemma ShortLineReadAway(filename: string, data: string, tail: ReadError, pos: nat, src: string)
    requires SkipsNextLine(filename, src) && pos + 1 < |data| && data[pos + 1] == '\n'
    requires data[pos] != '\n' && data[pos] != '\r'
    ensures !BlankAhead(data, pos)
    ensures NextLine(data, pos, DefaultBufSize, tail).0 == Line([data[pos]])
    ensures TocPos(filename, data, tail, pos, src) == pos + 2
  {
    SkippedLine(data, pos, DefaultBufSize, tail);
    LineAfterEntryRead(filename, data, tail, pos, src);
  }

  // ---------------------------------------------------------------------------
  // tocEntry: blank lines dropped

  /** What `tocEntry` was meant to return: a blank line of SUMMARY.md is
      skipped, and any other line rewritten as the code does. */
  function TocRewriteBlankSkipped(filename: string, prevLine: string, src: string): (r: Outcome)
    ensures Base(filename) == SummaryName ==> r != Ok([])
  {
    if Base(filename) == SummaryName && TrimSpace(src) == [] then Skip
    else TocRewrite(filename, prevLine, src)
  }

  /** A blank line of SUMMARY.md is dropped; a line that is not blank, and any
      line elsewhere, is rewritten as the code does. */
  lemma BlankLineCases(filename: string, prevLine: string, src: string)
    ensures Base(filename) == SummaryName && AllSpace(src) ==> TocRewriteBlankSkipped(filename, prevLine, src) == Skip
    ensures Base(filename) != SummaryName || TrimSpace(src) != [] ==>
      TocRewriteBlankSkipped(filename, prevLine, src) == TocRewrite(filename, prevLine, src)
  {
    if Base(filename) == SummaryName && AllSpace(src) {
      BlankLineEmpty(filename, prevLine, src);
    }
  }

  // ---------------------------------------------------------------------------
  // unescapeLinks: an asset target rewritten where it stands

  /** What a link match is rewritten to when the rewrite stays within the match:
      an http link is kept; an asset link gets its resolved target in place of
      its own target, the title untouched; a titled page link becomes
      `[[title|page]]`; a page link without a title is an error (None). */
  function ScopedEdit(s: string, m: Match, wikiRepo: string): Option<string>
    requires Within(s, m)
  {
    var target := Group2(s, m);
    if StartsWith(target, HttpPrefix) then Some(Whole(s, m))
    else
      var link := ResolveLink(target, false, wikiRepo);
      if !EndsWith(target, MarkdownSuffix) then Some(s[m.start..m.group2Start] + link + s[m.group2End..m.end])
      else if Group1(s, m) == [] then None
      else Some("[[" + Group1(s, m) + "|" + link + "]]")
  }

  /** `x` put in front of a result; an error stays an error. */
  function Prepend(x: string, o: Option<string>): Option<string> {
    match o
    case Some(r) => Some(x + r)
    case None => None
  }

  lemma PrependTwice(x: string, y: string, o: Option<string>)
    ensures Prepend(x, Prepend(y, o)) == Prepend(x + y, o)
  {
    if o.Some? {
      assert x + (y + o.value) == (x + y) + o.value;
    }
  }

  lemma PrependNothing(o: Option<string>)
    ensures Prepend([], o) == o
  {
    if o.Some? {
      assert [] + o.value == o.value;
    }
  }

  /** `unescapeLinks` with each link rewritten within its own span: the text
      from `from` on, the links found as `FindAllSubmatch` finds them, the
      bytes between them copied; None at the first page link without a title. */
  function ScopedFrom(s: string, from: nat, wikiRepo: string): Option<string>
    requires from <= |s|
    decreases |s| - from
  {
    if from == |s| then Some([])
    else match MatchAt(Link, s, from)
      case None => Prepend([s[from]], ScopedFrom(s, from + 1, wikiRepo))
      case Some(m) =>
        match ScopedEdit(s, m, wikiRepo)
        case None => None
        case Some(e) => Prepend(e, ScopedFrom(s, m.end, wikiRepo))
  }

  /** The outcome of `unescapeLinks` as intended. */
  function ScopedLinks(keepLinks: bool, wikiRepo: string, s: string): (r: Outcome)
    ensures r.Ok? || r.Fail?
    ensures keepLinks ==> r == Ok(s)
  {
    if keepLinks then Ok(s)
    else match ScopedFrom(s, 0, wikiRepo)
      case Some(t) => Ok(t)
      case None => Fail
  }

  /** Bytes that start no link are copied as they are. */
  lemma {:induction false} ScopedCopies(s: string, i: nat, j: nat, wikiRepo: string)
    requires Clear(s, i, j, '[')
    ensures ScopedFrom(s, i, wikiRepo) == Prepend(s[i..j], ScopedFrom(s, j, wikiRepo))
    decreases j - i
  {
    if i < j {
      assert s[i..j] == [s[i]] + s[i + 1..j];
      ScopedCopies(s, i + 1, j, wikiRepo);
      PrependTwice([s[i]], s[i + 1..j], ScopedFrom(s, j, wikiRepo));
    } else {
      PrependNothing(ScopedFrom(s, j, wikiRepo));
    }
  }

  /** A line without '[' is left as it is. */
  lemma ScopedNoBracket(wikiRepo: string, s: string)
    requires Lacks(s, '[')
    ensures ScopedLinks(false, wikiRepo, s) == Ok(s)
  {
    assert s[0..|s|] == s;
    assert Clear(s, 0, |s|, '[');
    ScopedCopies(s, 0, |s|, wikiRepo);
    assert s + [] == s;
  }

  /** The link in `a` + '[' `t` "](" `u` ')' + `b` is the match at |a|. */
  lemma LinkInLine(a: string, t: string, u: string, b: string)
    requires PlainLink(t, u)
    ensures var s := a + LinkText(t, u) + b; var m := LinkMatch(|a|, t, u);
      MatchAt(Link, s, |a|) == Some(m) && Within(s, m) && m.end == |a| + |LinkText(t, u)| &&
      Whole(s, m) == LinkText(t, u) && Group1(s, m) == t && Group2(s, m) == u
  {
    var w := LinkText(t, u);
    var s := a + w + b;
    LinkEnclosesBase(t, u);
    LinkEnclosesLeft(a, w, 0, t, u);
    LinkEnclosesRight(a + w, b, |a|, t, u);
    LinkEnclosedMatch(s, |a|, t, u);
    LinkEnclosedTexts(s, |a|, t, u);
  }

  /** Around the target of the link in a line: '[' `t` "](" before it, ')' after it. */
  lemma AroundLinkTarget(s: string, t: string, u: string, m: Match)
    requires m == LinkMatch(m.start, t, u) && Within(s, m) && Whole(s, m) == LinkText(t, u)
    ensures s[m.start..m.group2Start] == "[" + t + "](" && s[m.group2End..m.end] == ")"
  {
    var w := LinkText(t, u);
    assert m.group2Start == m.start + 3 + |t| && m.group2End == m.start + 3 + |t| + |u| && m.end == m.group2End + 1;
    assert w[..3 + |t|] == "[" + t + "](" && w[3 + |t| + |u|..] == ")";
    SliceOfSlice(s, m.start, m.end, 3 + |t|);
  }

  /** The parts of a slice are slices. */
  lemma SliceOfSlice(s: string, i: nat, j: nat, k: nat)
    requires i + k <= j <= |s|
    ensures s[i..j][..k] == s[i..i + k] && s[i..j][k..] == s[i + k..j]
  {
  }

  /** A line with one link: the text around the link copied, the link rewritten
      by its own edit. */
  lemma ScopedOneLink(wikiRepo: string, a: string, t: string, u: string, b: string)
    requires Lacks(a, '[') && Lacks(b, '[') && PlainLink(t, u)
    ensures var s := a + LinkText(t, u) + b;
      ScopedLinks(false, wikiRepo, s) ==
        match ScopedEdit(s, LinkMatch(|a|, t, u), wikiRepo)
        case Some(e) => Ok(a + e + b)
        case None => Fail
  {
    var s := a + LinkText(t, u) + b;
    var m := LinkMatch(|a|, t, u);
    var w := LinkText(t, u);
    LinkInLine(a, t, u, b);
    assert s[0..|a|] == a && s[m.end..|s|] == b;
    ClearRight(a, w, 0, |a|, '[');
    ClearRight(a + w, b, 0, |a|, '[');
    ClearLeft(a + w, b, 0, |b|, '[');
    ScopedCopies(s, 0, |a|, wikiRepo);
    ScopedCopies(s, m.end, |s|, wikiRepo);
    assert ScopedFrom(s, |s|, wikiRepo) == Some([]);
    assert b + [] == b;
    match ScopedEdit(s, m, wikiRepo)
    case Some(e) =>
      PrependTwice(a, e, Some(b));
      assert a + (e + b) == a + e + b;
    case None =>
  }

  /** The link to an asset gets the resolved target in place of its own
      target, whatever its title, even a title equal to the target (the case
      where `RewriterProperties.AssetTitleReplaced` shows the code replacing the
      title instead). */
  lemma AssetTargetReplaced(wikiRepo: string, a: string, t: string, u: string, b: string)
    requires Lacks(a, '[') && Lacks(b, '[') && PlainLink(t, u)
    requires !StartsWith(u, HttpPrefix) && !EndsWith(u, MarkdownSuffix)
    ensures ScopedLinks(false, wikiRepo, a + LinkText(t, u) + b) ==
      Ok(a + LinkText(t, ResolveLink(u, false, wikiRepo)) + b)
  {
    var s := a + LinkText(t, u) + b;
    LinkInLine(a, t, u, b);
    AroundLinkTarget(s, t, u, LinkMatch(|a|, t, u));
    ScopedOneLink(wikiRepo, a, t, u, b);
    var link := ResolveLink(u, false, wikiRepo);
    assert "[" + t + "](" + link + ")" == LinkText(t, link);
  }

  /** The image link of main_test.go:43 with its path as its title: as
      written, the title becomes the wiki link and the target stays; as
      intended, the target becomes the wiki link and the title stays. */
  lemma ImageTitledByPath(b: string, u: string, link: string)
    requires b == "image.png" && u == "../" + AssetsSource + "/" + b
    requires link == PathExamples.Wiki + "/" + AssetsDir + "/" + b
    ensures UnescapedLinks(false, PathExamples.Wiki, LinkText(u, u)) == Ok(LinkText(link, u))
    ensures ScopedLinks(false, PathExamples.Wiki, LinkText(u, u)) == Ok(LinkText(u, link))
  {
    assert ResolveLink(u, false, PathExamples.Wiki) == link by {
      PathExamples.AssetCase(b);
    }
    ImagePathPlain(b, u);
    SameTitleAndTarget(PathExamples.Wiki, u, link);
  }

  /** The image path is a plain link target that is neither http nor a page. */
  lemma ImagePathPlain(b: string, u: string)
    requires b == "image.png" && u == "../" + AssetsSource + "/" + b
    ensures PlainLink(u, u) && u[0] != '['
    ensures !StartsWith(u, HttpPrefix) && !EndsWith(u, MarkdownSuffix)
  {
    LinkSafe("../");
    LinkSafe(AssetsSource);
    LinkSafe("/");
    LinkSafe(b);
    assert u == ("../" + AssetsSource) + ("/" + b);
    assert u[0] == '.';
    assert u[|u| - 1] == 'g';
  }

  /** The bytes of a short literal path: no line end, no ']', no parenthesis. */
  lemma LinkSafe(s: string)
    requires s in {"../", ".gitbook/assets", "/", "image.png"}
    ensures NoNewline(s) && Lacks(s, ']') && Lacks(s, '(') && Lacks(s, ')')
  {
  }

  /** A link whose title is its own target: the code rewrites the title and
      keeps the target, and the rewrite within the link does the reverse. */
  lemma SameTitleAndTarget(wikiRepo: string, u: string, link: string)
    requires PlainLink(u, u) && u[0] != '['
    requires !StartsWith(u, HttpPrefix) && !EndsWith(u, MarkdownSuffix)
    requires ResolveLink(u, false, wikiRepo) == link
    ensures UnescapedLinks(false, wikiRepo, LinkText(u, u)) == Ok(LinkText(link, u))
    ensures ScopedLinks(false, wikiRepo, LinkText(u, u)) == Ok(LinkText(u, link))
  {
    assert Lacks([], u[0]);
    NothingAround(LinkText(u, u));
    NothingAround(LinkText(link, u));
    NothingAround(LinkText(u, link));
    assert UnescapedLinks(false, wikiRepo, LinkText(u, u)) == Ok(LinkText(link, u)) by {
      AssetTitleReplaced(wikiRepo, [], u, []);
    }
    AssetTargetReplaced(wikiRepo, [], u, u, []);
  }

  lemma NothingAround(s: string)
    ensures [] + s + [] == s
  {
  }

  /** A link to an http target is kept ... */
  lemma ScopedHttpKept(wikiRepo: string, a: string, t: string, u: string, b: string)
    requires Lacks(a, '[') && Lacks(b, '[') && PlainLink(t, u) && StartsWith(u, HttpPrefix)
    ensures ScopedLinks(false, wikiRepo, a + LinkText(t, u) + b) == Ok(a + LinkText(t, u) + b)
  {
    LinkInLine(a, t, u, b);
    ScopedOneLink(wikiRepo, a, t, u, b);
  }

  /** ... a titled page link becomes `[[t|page]]` ... */
  lemma ScopedPageLink(wikiRepo: string, a: string, t: string, u: string, b: string)
    requires Lacks(a, '[') && Lacks(b, '[') && PlainLink(t, u) && t != []
    requires !StartsWith(u, HttpPrefix) && EndsWith(u, MarkdownSuffix)
    ensures ScopedLinks(false, wikiRepo, a + LinkText(t, u) + b) ==
      Ok(a + ("[[" + t + "|" + ResolveLink(u, false, wikiRepo) + "]]") + b)
  {
    LinkInLine(a, t, u, b);
    ScopedOneLink(wikiRepo, a, t, u, b);
  }

  /** ... and a page link without a title is an error. */
  lemma ScopedUntitled(wikiRepo: string, a: string, u: string, b: string)
    requires Lacks(a, '[') && Lacks(b, '[') && PlainLink([], u)
    requires !StartsWith(u, HttpPrefix) && EndsWith(u, MarkdownSuffix)
    ensures ScopedLinks(false, wikiRepo, a + LinkText([], u) + b) == Fail
  {
    LinkInLine(a, [], u, b);
    ScopedOneLink(wikiRepo, a, [], u, b);
  }

  /** Links to http targets and to pages are rewritten as the code does. */
  lemma ScopedAgrees(wikiRepo: string, a: string, t: string, u: string, b: string)
    requires Lacks(a, '[') && Lacks(b, '[') && PlainLink(t, u)
    requires StartsWith(u, HttpPrefix) || EndsWith(u, MarkdownSuffix)
    ensures ScopedLinks(false, wikiRepo, a + LinkText(t, u) + b) == UnescapedLinks(false, wikiRepo, a + LinkText(t, u) + b)
  {
    if StartsWith(u, HttpPrefix) {
      ScopedHttpKept(wikiRepo, a, t, u, b);
      HttpLinkKept(wikiRepo, a, t, u, b);
    } else if t == [] {
      ScopedUntitled(wikiRepo, a, u, b);
      PageLinkWithoutTitle(wikiRepo, a, u, b);
    } else {
      ScopedPageLink(wikiRepo, a, t, u, b);
      PageLinkToWiki(wikiRepo, a, t, u, b);
    }
  }
}
