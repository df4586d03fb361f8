/** The table-of-contents example of the comment at main.go:496-503: a section
    heading, a blank line and an entry below it.  As written, the blank line is written and the entry is not
    nested under the heading; as intended, the blank line goes and the entry is
    nested. */
module Sidebar {
  import opened Text
  import opened Paths
  import opened LineReader
  import opened Layout
  import opened Rewriters
  import opened RewriterProperties
  import opened Toc
  import opened Pipeline
  import opened PipelineProperties
  import opened Corrections
  import opened Intended

  // ---------------------------------------------------------------------------
  // Lines of SUMMARY.md through the replacers

  /** `unescapeParens`, `unescapePageRefs` and `unescapeLinks` in turn: the
      line goes through the three rewrites, the reader left alone. */
  lemma ThreeRewrites(rs: seq<Replacer>, keepLinks: bool, wikiRepo: string, data: string, tail: ReadError, pos: nat,
                      prevLine: string, line: string)
    requires pos <= |data| && rs == [ParensUnescaper, PageRefUnescaper, LinkUnescaper(keepLinks, wikiRepo)]
    ensures Chain(rs, data, tail, pos, prevLine, line) ==
      (UnescapedLinks(keepLinks, wikiRepo, UnescapedPageRefs(UnescapedParens(line))), pos)
  {
    var l1 := UnescapedParens(line);
    var l2 := UnescapedPageRefs(l1);
    var last := [LinkUnescaper(keepLinks, wikiRepo)];
    assert rs[1..] == [PageRefUnescaper] + last && rs[1..][1..] == last;
    assert Chain(rs, data, tail, pos, prevLine, line) == Chain(rs[1..], data, tail, pos, prevLine, l1) by {
      assert rs[0] == ParensUnescaper;
      ChainOn(rs, data, tail, pos, prevLine, line, l1, pos);
    }
    assert Chain(rs[1..], data, tail, pos, prevLine, l1) == Chain(last, data, tail, pos, prevLine, l2) by {
      assert rs[1..][0] == PageRefUnescaper;
      ChainOn(rs[1..], data, tail, pos, prevLine, l1, l2, pos);
    }
    LastRewrite(keepLinks, wikiRepo, data, tail, pos, prevLine, l2);
  }

  /** `unescapeLinks` last: its outcome is the loop's. */
  lemma LastRewrite(keepLinks: bool, wikiRepo: string, data: string, tail: ReadError, pos: nat, prevLine: string, l: string)
    requires pos <= |data|
    ensures Chain([LinkUnescaper(keepLinks, wikiRepo)], data, tail, pos, prevLine, l) == (UnescapedLinks(keepLinks, wikiRepo, l), pos)
  {
    var last := [LinkUnescaper(keepLinks, wikiRepo)];
    assert last[0] == LinkUnescaper(keepLinks, wikiRepo) && last[1..] == [];
  }

  /** The replacers after `tocEntry` as written: `unescapeParens`,
      `unescapePageRefs` and `unescapeLinks` in turn, the reader left alone. */
  lemma LaterChain(filename: string, cfg: Config, data: string, tail: ReadError, pos: nat, prevLine: string, line: string)
    requires pos <= |data|
    ensures Chain(Replacers(filename, cfg)[1..], data, tail, pos, prevLine, line) ==
      (UnescapedLinks(cfg.keepLinks, cfg.wikiRepo, UnescapedPageRefs(UnescapedParens(line))), pos)
  {
    assert Replacers(filename, cfg)[1..] == [ParensUnescaper, PageRefUnescaper, LinkUnescaper(cfg.keepLinks, cfg.wikiRepo)];
    ThreeRewrites(Replacers(filename, cfg)[1..], cfg.keepLinks, cfg.wikiRepo, data, tail, pos, prevLine, line);
  }

  /** As written, a line of SUMMARY.md that `tocEntry` rewrites to `l`, free of
      backslashes and '{', comes out as its links are rewritten, the reader
      where `tocEntry` left it. */
  lemma TocThenLinks(filename: string, cfg: Config, data: string, tail: ReadError, pos: nat, prevLine: string,
                     line: string, l: string, m: string)
    requires pos <= |data| && TocRewrite(filename, prevLine, line) == Ok(l)
    requires Lacks(l, '\\') && Lacks(l, '{') && UnescapedLinks(cfg.keepLinks, cfg.wikiRepo, l) == Ok(m)
    ensures Chain(Replacers(filename, cfg), data, tail, pos, prevLine, line) == (Ok(m), TocPos(filename, data, tail, pos, line))
  {
    var q := TocPos(filename, data, tail, pos, line);
    ChainOn(Replacers(filename, cfg), data, tail, pos, prevLine, line, l, q);
    LaterChain(filename, cfg, data, tail, q, prevLine, l);
    NoBackslashUnchanged(l);
    NoBraceUnchanged(l);
  }

  /** ... and one without '[' either comes out as `tocEntry` left it. */
  lemma TocThenPlain(filename: string, cfg: Config, data: string, tail: ReadError, pos: nat, prevLine: string,
                     line: string, l: string)
    requires pos <= |data| && TocRewrite(filename, prevLine, line) == Ok(l)
    requires Lacks(l, '\\') && Lacks(l, '{') && Lacks(l, '[') && !cfg.keepLinks
    ensures Chain(Replacers(filename, cfg), data, tail, pos, prevLine, line) == (Ok(l), TocPos(filename, data, tail, pos, line))
  {
    NoBracketUnchanged(cfg.wikiRepo, l);
    TocThenLinks(filename, cfg, data, tail, pos, prevLine, line, l, l);
  }

  /** As intended, a line that `tocEntry` rewrites to `l`, free of backslashes
      and '{', comes out as the links of `l` are rewritten within their spans. */
  lemma IntendedThenLinks(filename: string, cfg: Config, data: string, tail: ReadError, pos: nat, prevLine: string,
                          line: string, l: string, m: string)
    requires pos <= |data| && TocRewriteBlankSkipped(filename, prevLine, line) == Ok(l)
    requires Lacks(l, '\\') && Lacks(l, '{') && ScopedLinks(cfg.keepLinks, cfg.wikiRepo, l) == Ok(m)
    ensures IntendedChain(filename, cfg, data, tail, pos, prevLine, line) == (Ok(m), TocPosBlank(filename, data, tail, pos, line))
  {
    NoBackslashUnchanged(l);
    NoBraceUnchanged(l);
  }

  /** ... and one without '[' either comes out as `tocEntry` left it. */
  lemma IntendedThenPlain(filename: string, cfg: Config, data: string, tail: ReadError, pos: nat, prevLine: string,
                          line: string, l: string)
    requires pos <= |data| && TocRewriteBlankSkipped(filename, prevLine, line) == Ok(l)
    requires Lacks(l, '\\') && Lacks(l, '{') && Lacks(l, '[') && !cfg.keepLinks
    ensures IntendedChain(filename, cfg, data, tail, pos, prevLine, line) == (Ok(l), TocPosBlank(filename, data, tail, pos, line))
  {
    ScopedNoBracket(cfg.wikiRepo, l);
    IntendedThenLinks(filename, cfg, data, tail, pos, prevLine, line, l, l);
  }

  // ---------------------------------------------------------------------------
  // The document "## S\n\n* [T](p.md)\n"

  /** A line ended by '\n' at `pos` that reads back as it stands. */
  lemma LineAt(data: string, tail: ReadError, pos: nat, l: string)
    requires pos + |l| < |data| && data[pos..pos + |l|] == l && data[pos + |l|] == '\n' && ReadsBack(l)
    ensures ReadsLine(Reads(data, tail), pos, l)
  {
    LineUpToNewline(data, pos, DefaultBufSize, tail, |l|);
    assert Reads(data, tail)(pos) == NextLine(data, pos, DefaultBufSize, tail);
  }

  /** Where the lines of the document stand. */
  lemma SidebarBytes(data: string)
    requires data == "## S\n\n* [T](p.md)\n"
    ensures |data| == 18 && data[5] == '\n' && data[6] == '*'
    ensures data[0..4] == "## S" && data[4] == '\n'
    ensures data[5..5] == [] && data[5] == '\n'
    ensures data[6..17] == "* [T](p.md)" && data[17] == '\n'
  {
  }

  lemma SidebarReadsBack(h: string, e: string)
    requires h == "## S" && e == "* [T](p.md)"
    ensures ReadsBack(h) && ReadsBack([]) && ReadsBack(e)
  {
  }

  /** The heading at 0, the blank line at 5, the entry at 6, the end at 18. */
  lemma SidebarLines(data: string, tail: ReadError)
    requires data == "## S\n\n* [T](p.md)\n"
    ensures |data| == 18 && data[5] == '\n' && data[6] == '*'
    ensures ReadsLine(Reads(data, tail), 0, "## S")
    ensures ReadsLine(Reads(data, tail), 5, [])
    ensures ReadsLine(Reads(data, tail), 6, "* [T](p.md)")
    ensures ReadsEnd(Reads(data, tail), 18)
  {
    SidebarBytes(data);
    SidebarReadsBack("## S", "* [T](p.md)");
    LineAt(data, tail, 0, "## S");
    LineAt(data, tail, 5, []);
    LineAt(data, tail, 6, "* [T](p.md)");
    DocumentEnds(data, tail);
  }

  /** The intended reader gives a line wherever the code's reader does ... */
  lemma KeptReadsLine(data: string, tail: ReadError, pos: nat, l: string)
    requires pos <= |data| && ReadsLine(Reads(data, tail), pos, l)
    ensures ReadsLine(ReadsKept(data, tail), pos, l)
  {
    assert Reads(data, tail)(pos) == NextLine(data, pos, DefaultBufSize, tail);
    KeptAgrees(data, pos, DefaultBufSize, tail);
    assert ReadsKept(data, tail)(pos) == NextLineKept(data, pos, DefaultBufSize, tail);
  }

  /** ... and ends where the document does. */
  lemma KeptReadsEnd(data: string, tail: ReadError)
    ensures ReadsEnd(ReadsKept(data, tail), |data|)
  {
    assert ReadsKept(data, tail)(|data|) == NextLineKept(data, |data|, DefaultBufSize, tail);
  }

  /** The heading becomes the root entry "* S" ... */
  lemma HeadingLine(filename: string, prevLine: string, h: string, x: string, m: string)
    requires Base(filename) == SummaryName && h == "## S" && x == "S" && m == "* S"
    ensures TocRewrite(filename, prevLine, h) == Ok(m)
  {
    assert [] + ("## " + x) + [] == h;
    assert Trimmed(x) by {
      assert x[0] == 'S' && x[|x| - 1] == 'S';
    }
    HeadingBecomesEntry(filename, prevLine, [], x, []);
    assert AsteriskEntry + x == m;
  }

  /** ... counts for the blank line after it, and does not open a fence. */
  lemma HeadingCounts(filename: string, h: string)
    requires Base(filename) == SummaryName && h == "## S"
    ensures SkipsNextLine(filename, h) && TrimSpace(h) != []
    ensures !StartsWith(h, CodeSnippet)
  {
    assert h[0] == '#' && h[3] == 'S';
    TrimSpaceAround([], h, []);
    assert [] + h + [] == h;
    FirstByteDiffers(h, CodeSnippet);
  }

  lemma RootEntryPlain(l: string)
    requires l == "* S"
    ensures Lacks(l, '\\') && Lacks(l, '{') && Lacks(l, '[') && UnderEntry(l)
  {
    assert l[..2] == AsteriskEntry;
  }

  /** The entry line, trimmed, and nested exactly when the line written before
      it is an entry. */
  lemma EntryLine(filename: string, prevLine: string, e: string)
    requires Base(filename) == SummaryName && e == "* [T](p.md)"
    ensures TocRewrite(filename, prevLine, e) == if UnderEntry(prevLine) then Ok(Tab + e) else Ok(e)
    ensures TrimSpace(e) != [] && !StartsWith(e, CodeSnippet)
  {
    assert e[0] == '*' && e[|e| - 1] == ')';
    assert [] + e + [] == e;
    EntryNesting(filename, prevLine, [], e, []);
    TrimSpaceAround([], e, []);
    FirstByteDiffers(e, CodeSnippet);
  }

  /** The entry: "* " and the link to the page p.md titled T. */
  lemma EntryParts(e: string, t: string, u: string)
    requires e == "* [T](p.md)" && t == "T" && u == "p.md"
    ensures e == "* " + LinkText(t, u)
    ensures PlainLink(t, u) && t != [] && !StartsWith(u, HttpPrefix) && EndsWith(u, MarkdownSuffix)
  {
    FirstByteDiffers(u, HttpPrefix);
    assert u[|u| - 3..] == MarkdownSuffix;
  }

  /** What the entry's link becomes: "* [[T|p]]". */
  lemma EntryWikiLink(t: string, m: string)
    requires t == "T" && m == "* [[T|p]]"
    ensures "* " + ("[[" + t + "|" + "p" + "]]") == m
  {
  }

  /** The entry, after white space `lead`, has no backslash and no '{' ... */
  lemma EntryLacks(lead: string, e: string)
    requires AllSpace(lead) && e == "* [T](p.md)"
    ensures Lacks(lead + e, '\\') && Lacks(lead + e, '{')
  {
    forall i | 0 <= i < |lead + e| ensures (lead + e)[i] != '\\' && (lead + e)[i] != '{' {
      if i < |lead| {
        assert (lead + e)[i] == lead[i] && IsSpace(lead[i]);
      } else {
        assert (lead + e)[i] == e[i - |lead|];
      }
    }
  }

  /** ... and nothing but white space and "* " before its link. */
  lemma EntrySplit(lead: string, e: string, t: string, u: string)
    requires AllSpace(lead) && e == "* " + LinkText(t, u)
    ensures Lacks(lead + "* ", '[')
    ensures lead + e == (lead + "* ") + LinkText(t, u) + []
  {
    var a := lead + "* ";
    forall i | 0 <= i < |a| ensures a[i] != '[' {
      if i < |lead| { assert a[i] == lead[i] && IsSpace(lead[i]); }
    }
  }

  /** The entry's target is the page "p". */
  lemma TargetPage(wikiRepo: string, u: string)
    requires u == "p.md"
    ensures ResolveLink(u, false, wikiRepo) == "p"
  {
    RootPageUnchanged(u);
    assert u[0] != AssetsDir[0];
    FirstByteDiffers(u, AssetsDir);
    PageLinkFromOutput(u, u, wikiRepo);
    assert LastIndexOf(u, '/').None?;
    assert EndsWith(u, MarkdownSuffix) && u[..1] == "p";
  }

  /** The wiki link after `lead`. */
  lemma WikiLinkAfter(lead: string, t: string, m: string)
    requires t == "T" && m == "* [[T|p]]"
    ensures (lead + "* ") + ("[[" + t + "|" + "p" + "]]") + [] == lead + m
  {
    EntryWikiLink(t, m);
    assert (lead + "* ") + ("[[" + t + "|" + "p" + "]]") + [] == lead + ("* " + ("[[" + t + "|" + "p" + "]]"));
  }

  /** The link of the entry, after white space `lead`, becomes a wiki link to
      "p" as the code rewrites links ... */
  lemma EntryLinkWritten(wikiRepo: string, lead: string, e: string, t: string, u: string, m: string)
    requires AllSpace(lead) && e == "* [T](p.md)" && t == "T" && u == "p.md" && m == "* [[T|p]]"
    ensures UnescapedLinks(false, wikiRepo, lead + e) == Ok(lead + m)
  {
    EntryParts(e, t, u);
    EntrySplit(lead, e, t, u);
    assert UnescapedLinks(false, wikiRepo, lead + e) ==
      Ok((lead + "* ") + ("[[" + t + "|" + ResolveLink(u, false, wikiRepo) + "]]") + []) by {
      PageLinkToWiki(wikiRepo, lead + "* ", t, u, []);
    }
    TargetPage(wikiRepo, u);
    WikiLinkAfter(lead, t, m);
  }

  /** ... and as the rewrite within the link does. */
  lemma EntryLinkScoped(wikiRepo: string, lead: string, e: string, t: string, u: string, m: string)
    requires AllSpace(lead) && e == "* [T](p.md)" && t == "T" && u == "p.md" && m == "* [[T|p]]"
    ensures ScopedLinks(false, wikiRepo, lead + e) == Ok(lead + m)
  {
    EntryParts(e, t, u);
    EntrySplit(lead, e, t, u);
    assert ScopedLinks(false, wikiRepo, lead + e) ==
      Ok((lead + "* ") + ("[[" + t + "|" + ResolveLink(u, false, wikiRepo) + "]]") + []) by {
      ScopedPageLink(wikiRepo, lead + "* ", t, u, []);
    }
    TargetPage(wikiRepo, u);
    WikiLinkAfter(lead, t, m);
  }

  lemma WrittenText(a: string, b: string, c: string)
    requires a == "* S\n" && b == "\n" && c == "* [[T|p]]\n"
    ensures a + (b + (c + [])) == "* S\n\n* [[T|p]]\n"
  {
  }

  lemma IntendedText(a: string, b: string)
    requires a == "* S\n" && b == "  * [[T|p]]\n"
    ensures a + (b + []) == "* S\n  * [[T|p]]\n"
  {
  }

  /** A turn of the read loop that writes `out` for the line `l` and goes on
      from `q` with `m` as the line last written. */
  lemma TurnWritten(step: LineStep, read: Reader, n: nat, pos: nat, prevLine: string, l: string, m: string, q: nat, out: string)
    requires pos <= n && ReaderOn(read, n) && Advances(step, n)
    requires ReadsLine(read, pos, l) && !StartsWith(l, CodeSnippet) && pos + |l| + 1 <= n
    requires step(pos + |l| + 1, prevLine, l) == (Ok(m), q) && Emit(prevLine, m) == out
    ensures q <= n
    ensures Render(step, read, n, pos, prevLine) == Rendered(out + Render(step, read, n, q, m).out, Render(step, read, n, q, m).ok)
  {
    LineWritten(step, read, n, pos, prevLine, l, m);
  }

  /** What is written for the three lines written. */
  lemma Emitted(m1: string, m3: string)
    requires m1 == "* S" && m3 == "* [[T|p]]"
    ensures Emit([], m1) == "* S\n" && Emit(m1, []) == "\n" && Emit([], m3) == "* [[T|p]]\n"
    ensures Emit(m1, Tab + m3) == "  * [[T|p]]\n"
  {
  }

  // ---------------------------------------------------------------------------
  // As written

  /** As written, the heading becomes "* S" and the reader stays on the blank
      line, since the line after it is not blank ... */
  lemma AsWrittenHeading(filename: string, cfg: Config, data: string, tail: ReadError, h: string, m: string)
    requires Base(filename) == SummaryName && !cfg.keepLinks && |data| == 18 && data[6] == '*'
    requires h == "## S" && m == "* S"
    ensures Chain(Replacers(filename, cfg), data, tail, 5, [], h) == (Ok(m), 5)
  {
    HeadingLine(filename, [], h, "S", m);
    RootEntryPlain(m);
    LineAfterEntryKept(filename, data, tail, 5, h);
    TocThenPlain(filename, cfg, data, tail, 5, [], h, m);
  }

  /** ... the blank line is written as an empty line ... */
  lemma AsWrittenBlank(filename: string, cfg: Config, data: string, tail: ReadError)
    requires Base(filename) == SummaryName && !cfg.keepLinks && |data| == 18
    ensures Chain(Replacers(filename, cfg), data, tail, 6, "* S", []) == (Ok([]), 6)
  {
    BlankLineEmpty(filename, "* S", []);
    ShortLineTrimmed(filename, data, tail, 6, "* S", []);
    TocThenPlain(filename, cfg, data, tail, 6, "* S", [], []);
  }

  /** ... and the entry, after the empty line, is not nested: it is trimmed
      and its link rewritten ... */
  lemma EntryWrittenFacts(filename: string, wikiRepo: string, e: string, m: string)
    requires Base(filename) == SummaryName && e == "* [T](p.md)" && m == "* [[T|p]]"
    ensures TocRewrite(filename, [], e) == Ok(e)
    ensures Lacks(e, '\\') && Lacks(e, '{') && UnescapedLinks(false, wikiRepo, e) == Ok(m)
  {
    assert TocRewrite(filename, [], e) == Ok(e) by {
      EntryLine(filename, [], e);
      assert !UnderEntry([]);
    }
    assert Lacks(e, '\\') && Lacks(e, '{') by {
      EntryLacks([], e);
      assert [] + e == e;
    }
    assert UnescapedLinks(false, wikiRepo, e) == Ok(m) by {
      EntryLinkWritten(wikiRepo, [], e, "T", "p.md", m);
      assert [] + e == e && [] + m == m;
    }
  }

  /** ... so that the replacers write it as its link is rewritten. */
  lemma AsWrittenEntry(filename: string, cfg: Config, data: string, tail: ReadError, e: string, m: string)
    requires Base(filename) == SummaryName && !cfg.keepLinks && |data| == 18
    requires TocRewrite(filename, [], e) == Ok(e)
    requires Lacks(e, '\\') && Lacks(e, '{') && UnescapedLinks(false, cfg.wikiRepo, e) == Ok(m)
    ensures Steps(Replacers(filename, cfg), data, tail)(18, [], e) == (Ok(m), 18)
  {
    LineAfterEntryKept(filename, data, tail, 18, e);
    TocThenLinks(filename, cfg, data, tail, 18, [], e, e, m);
  }

  /** A line `l` at `pos`, not opening a fence, that the replacer loop rewrites
      to `m`, going on from `q`. */
  ghost predicate WritesAt(step: LineStep, read: Reader, n: nat, pos: nat, prevLine: string, l: string, m: string, q: nat) {
    pos + |l| + 1 <= n && ReadsLine(read, pos, l) && !StartsWith(l, CodeSnippet) && step(pos + |l| + 1, prevLine, l) == (Ok(m), q)
  }

  /** Three lines written in turn, and then the end. */
  lemma ThreeLines(step: LineStep, read: Reader, n: nat, l1: string, l2: string, l3: string, m1: string, m2: string, m3: string,
                   q1: nat, q2: nat, q3: nat)
    requires ReaderOn(read, n) && Advances(step, n)
    requires WritesAt(step, read, n, 0, [], l1, m1, q1) && WritesAt(step, read, n, q1, m1, l2, m2, q2)
    requires WritesAt(step, read, n, q2, m2, l3, m3, q3) && q3 <= n && ReadsEnd(read, q3)
    ensures Render(step, read, n, 0, []) == Rendered(Emit([], m1) + (Emit(m1, m2) + (Emit(m2, m3) + [])), true)
  {
    TurnWritten(step, read, n, 0, [], l1, m1, q1, Emit([], m1));
    TurnWritten(step, read, n, q1, m1, l2, m2, q2, Emit(m1, m2));
    TurnWritten(step, read, n, q2, m2, l3, m3, q3, Emit(m2, m3));
    RenderEnd(step, read, n, q3, m3);
  }

  /** Two lines written in turn, and then the end. */
  lemma TwoLines(step: LineStep, read: Reader, n: nat, l1: string, l2: string, m1: string, m2: string, q1: nat, q2: nat)
    requires ReaderOn(read, n) && Advances(step, n)
    requires WritesAt(step, read, n, 0, [], l1, m1, q1) && WritesAt(step, read, n, q1, m1, l2, m2, q2)
    requires q2 <= n && ReadsEnd(read, q2)
    ensures Render(step, read, n, 0, []) == Rendered(Emit([], m1) + (Emit(m1, m2) + []), true)
  {
    TurnWritten(step, read, n, 0, [], l1, m1, q1, Emit([], m1));
    TurnWritten(step, read, n, q1, m1, l2, m2, q2, Emit(m1, m2));
    RenderEnd(step, read, n, q2, m2);
  }

  /** Neither the heading nor the entry opens a fence. */
  lemma NoFence(h: string, e: string)
    requires h == "## S" && e == "* [T](p.md)"
    ensures !StartsWith(h, CodeSnippet) && !StartsWith(e, CodeSnippet) && !StartsWith([], CodeSnippet)
  {
    FirstByteDiffers(h, CodeSnippet);
    FirstByteDiffers(e, CodeSnippet);
  }

  /** The replacer loop as written, at the three lines. */
  lemma WrittenSteps(filename: string, cfg: Config, data: string, tail: ReadError, h: string, e: string, m1: string, m3: string)
    requires Base(filename) == SummaryName && !cfg.keepLinks && |data| == 18 && data[6] == '*'
    requires h == "## S" && e == "* [T](p.md)" && m1 == "* S" && m3 == "* [[T|p]]"
    ensures var step := Steps(Replacers(filename, cfg), data, tail);
      step(5, [], h) == (Ok(m1), 5) && step(6, m1, []) == (Ok([]), 6) && step(18, [], e) == (Ok(m3), 18)
  {
    var step := Steps(Replacers(filename, cfg), data, tail);
    assert step(5, [], h) == (Ok(m1), 5) by {
      AsWrittenHeading(filename, cfg, data, tail, h, m1);
    }
    assert step(6, m1, []) == (Ok([]), 6) by {
      AsWrittenBlank(filename, cfg, data, tail);
    }
    assert step(18, [], e) == (Ok(m3), 18) by {
      EntryWrittenFacts(filename, cfg.wikiRepo, e, m3);
      AsWrittenEntry(filename, cfg, data, tail, e, m3);
    }
  }

  /** As written, "## S\n\n* [T](p.md)\n" in SUMMARY.md gives
      "* S\n\n* [[T|p]]\n": the blank line stays and the entry is not nested
      under its section. */
  lemma SidebarAsWritten(filename: string, cfg: Config, data: string, tail: ReadError)
    requires Base(filename) == SummaryName && !cfg.keepLinks && data == "## S\n\n* [T](p.md)\n"
    ensures Document(filename, cfg, data, tail) == Rendered("* S\n\n* [[T|p]]\n", true)
  {
    var h, e, m1, m3 := "## S", "* [T](p.md)", "* S", "* [[T|p]]";
    SidebarLines(data, tail);
    NoFence(h, e);
    Emitted(m1, m3);
    WrittenSteps(filename, cfg, data, tail, h, e, m1, m3);
    ThreeLines(Steps(Replacers(filename, cfg), data, tail), Reads(data, tail), 18, h, [], e, m1, [], m3, 5, 6, 18);
    WrittenText("* S\n", "\n", "* [[T|p]]\n");
  }

  // ---------------------------------------------------------------------------
  // As intended

  /** As intended, the blank line after the heading is read away ... */
  lemma HeadingBlankPos(filename: string, data: string, tail: ReadError, h: string)
    requires Base(filename) == SummaryName && |data| == 18 && data[5] == '\n' && SkipsNextLine(filename, h)
    ensures TocPosBlank(filename, data, tail, 5, h) == 6
  {
    BlankLineReadAway(filename, data, tail, 5, h);
  }

  /** ... the heading becomes "* S" ... */
  lemma HeadingIntended(filename: string, h: string, m: string)
    requires Base(filename) == SummaryName && h == "## S" && m == "* S"
    ensures TocRewriteBlankSkipped(filename, [], h) == Ok(m)
  {
    assert TrimSpace(h) != [] by {
      HeadingCounts(filename, h);
    }
    assert TocRewrite(filename, [], h) == Ok(m) by {
      HeadingLine(filename, [], h, "S", m);
    }
    BlankLineCases(filename, [], h);
  }

  /** ... and the heading comes out as `tocEntry` rewrites it, with the blank
      line read away. */
  lemma IntendedHeading(filename: string, cfg: Config, data: string, tail: ReadError, h: string, m: string)
    requires Base(filename) == SummaryName && !cfg.keepLinks && |data| == 18 && data[5] == '\n'
    requires SkipsNextLine(filename, h) && TocRewriteBlankSkipped(filename, [], h) == Ok(m)
    requires Lacks(m, '\\') && Lacks(m, '{') && Lacks(m, '[')
    ensures IntendedChain(filename, cfg, data, tail, 5, [], h) == (Ok(m), 6)
  {
    HeadingBlankPos(filename, data, tail, h);
    IntendedThenPlain(filename, cfg, data, tail, 5, [], h, m);
  }

  /** As intended, the entry after the section "* S" is nested under it ... */
  lemma EntryNestedIntended(filename: string, p1: string, e: string)
    requires Base(filename) == SummaryName && p1 == "* S" && e == "* [T](p.md)"
    ensures TocRewriteBlankSkipped(filename, p1, e) == Ok(Tab + e)
  {
    EntryLine(filename, p1, e);
    RootEntryPlain(p1);
    BlankLineCases(filename, p1, e);
  }

  /** ... and its link becomes a wiki link. */
  lemma EntryLinkIntended(wikiRepo: string, e: string, m: string)
    requires e == "* [T](p.md)" && m == "* [[T|p]]"
    ensures Lacks(Tab + e, '\\') && Lacks(Tab + e, '{') && ScopedLinks(false, wikiRepo, Tab + e) == Ok(Tab + m)
  {
    assert AllSpace(Tab);
    EntryLacks(Tab, e);
    EntryLinkScoped(wikiRepo, Tab, e, "T", "p.md", m);
  }

  /** What the heading is to the intended `tocEntry`. */
  lemma HeadingFacts(filename: string, h: string, m1: string)
    requires Base(filename) == SummaryName && h == "## S" && m1 == "* S"
    ensures SkipsNextLine(filename, h) && TocRewriteBlankSkipped(filename, [], h) == Ok(m1)
    ensures Lacks(m1, '\\') && Lacks(m1, '{') && Lacks(m1, '[')
  {
    HeadingCounts(filename, h);
    HeadingIntended(filename, h, m1);
    RootEntryPlain(m1);
  }

  /** The replacer loop as intended, at the heading ... */
  lemma IntendedHeadingStep(filename: string, cfg: Config, data: string, tail: ReadError, h: string, m1: string)
    requires Base(filename) == SummaryName && !cfg.keepLinks && |data| == 18 && data[5] == '\n'
    requires SkipsNextLine(filename, h) && TocRewriteBlankSkipped(filename, [], h) == Ok(m1)
    requires Lacks(m1, '\\') && Lacks(m1, '{') && Lacks(m1, '[')
    ensures IntendedSteps(filename, cfg, data, tail)(5, [], h) == (Ok(m1), 6)
  {
    IntendedHeading(filename, cfg, data, tail, h, m1);
  }

  /** ... and at the entry. */
  lemma IntendedEntryStep(filename: string, cfg: Config, data: string, tail: ReadError, e: string, m1: string, m3: string)
    requires Base(filename) == SummaryName && !cfg.keepLinks && |data| == 18
    requires e == "* [T](p.md)" && m1 == "* S" && m3 == "* [[T|p]]"
    ensures IntendedSteps(filename, cfg, data, tail)(18, m1, e) == (Ok(Tab + m3), 18)
  {
    EntryNestedIntended(filename, m1, e);
    EntryLinkIntended(cfg.wikiRepo, e, m3);
    IntendedThenLinks(filename, cfg, data, tail, 18, m1, e, Tab + e, Tab + m3);
  }

  /** As intended, "## S\n\n* [T](p.md)\n" in SUMMARY.md gives
      "* S\n  * [[T|p]]\n", and ends without error when the stream ends at end
      of file. */
  lemma SidebarIntended(filename: string, cfg: Config, data: string, tail: ReadError)
    requires Base(filename) == SummaryName && !cfg.keepLinks && data == "## S\n\n* [T](p.md)\n"
    ensures IntendedDocument(filename, cfg, data, tail) == Rendered("* S\n  * [[T|p]]\n", tail == EOF)
  {
    var h, e, m1, m3 := "## S", "* [T](p.md)", "* S", "* [[T|p]]";
    SidebarLines(data, tail);
    KeptReadsLine(data, tail, 0, h);
    KeptReadsLine(data, tail, 6, e);
    KeptReadsEnd(data, tail);
    NoFence(h, e);
    Emitted(m1, m3);
    HeadingFacts(filename, h, m1);
    IntendedHeadingStep(filename, cfg, data, tail, h, m1);
    IntendedEntryStep(filename, cfg, data, tail, e, m1, m3);
    TwoLines(IntendedSteps(filename, cfg, data, tail), ReadsKept(data, tail), 18, h, e, m1, Tab + m3, 6, 18);
    IntendedText("* S\n", "  * [[T|p]]\n");
  }
}
