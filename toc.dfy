/** `tocEntry`: the replacer that turns the table of contents (SUMMARY.md) into
    the wiki sidebar.  It reads the line last written and, once a line is long
    enough to count, reads away the blank line that follows it. */
module Toc {
  import opened Text
  import opened Paths
  import opened LineReader
  import opened Rewriters

  const AsteriskEntry := "* "
  /** Two spaces: one level of nesting in the sidebar. */
  const Tab := "  "

  /** An entry one level down: the line last written is a root entry or a
      nested one. */
  predicate UnderEntry(prevLine: string) {
    StartsWith(prevLine, AsteriskEntry) || StartsWith(prevLine, Tab + AsteriskEntry)
  }

  /** What `tocEntry` returns for `src`, given the line last written. */
  function TocRewrite(filename: string, prevLine: string, src: string): (r: Outcome)
    ensures r.NotResponsible? <==> Base(filename) != SummaryName
    ensures r.NotResponsible? ==> r.line == src
    ensures !r.Fail?
  {
    if Base(filename) != SummaryName then NotResponsible(src)
    else
      var t := TrimSpace(src);
      if |t| == 0 then Ok([])
      else if |t| < 4 then Ok(t)
      else if t[0] == '#' then
        if t[1] != '#' then Skip
        else if t[2] == ' ' then Ok(AsteriskEntry + t[3..])
        else Ok(AsteriskEntry + t[2..])
      else if t[0] == '*' && UnderEntry(prevLine) then Ok(Tab + t)
      else Ok(t)
  }

  /** Whether `tocEntry` defers `skipNextEmptyLine`: in SUMMARY.md, for every
      line of at least four bytes once trimmed, whatever it returns. */
  predicate SkipsNextLine(filename: string, src: string) {
    Base(filename) == SummaryName && |TrimSpace(src)| >= 4
  }

  /** Where the reader stands after `tocEntry` read `src` with the reader at `pos`. */
  function TocPos(filename: string, data: string, tail: ReadError, pos: nat, src: string): (q: nat)
    requires pos <= |data|
    ensures pos <= q <= |data|
  {
    if SkipsNextLine(filename, src) && PeeksNewline(data, pos) then NextLine(data, pos, DefaultBufSize, tail).1
    else pos
  }

  /** `tocEntry(filename, p)` applied to `src`. */
  method TocEntry(filename: string, p: Parser, src: string) returns (r: Outcome)
    requires p.Valid()
    modifies p`pos
    ensures p.Valid()
    ensures r == TocRewrite(filename, p.prevLine, src)
    ensures p.pos == TocPos(filename, p.data, p.tail, old(p.pos), src)
  {
    if Base(filename) != SummaryName {
      return NotResponsible(src);
    }
    var t := TrimSpace(src);
    if |t| == 0 {
      return Ok([]);
    }
    if |t| < 4 {
      return Ok(t);
    }
    // From here on `skipNextEmptyLine` is deferred: it runs after the result is chosen.
    if t[0] == '#' {
      if t[1] != '#' {
        r := Skip;
      } else if t[2] == ' ' {
        r := Ok(AsteriskEntry + t[3..]);
      } else {
        r := Ok(AsteriskEntry + t[2..]);
      }
    } else if t[0] == '*' && (StartsWith(p.prevLine, AsteriskEntry) || StartsWith(p.prevLine, Tab + AsteriskEntry)) {
      r := Ok(Tab + t);
    } else {
      r := Ok(t);
    }
    var _ := p.SkipNextEmptyLine();
  }

  // ---------------------------------------------------------------------------
  // What the sidebar gets

  /** A table of contents line once trimmed: it neither starts nor ends with white space. */
  predicate Trimmed(core: string) {
    core != [] && !IsSpace(core[0]) && !IsSpace(core[|core| - 1])
  }

  /** In SUMMARY.md, a line that is blank or shorter than four bytes once trimmed
      comes back trimmed, and the reader does not move. */
  lemma ShortLineTrimmed(filename: string, data: string, tail: ReadError, pos: nat, prevLine: string, src: string)
    requires Base(filename) == SummaryName && |TrimSpace(src)| < 4 && pos <= |data|
    ensures TocRewrite(filename, prevLine, src) == Ok(TrimSpace(src))
    ensures TocPos(filename, data, tail, pos, src) == pos
  {
  }

  /** A blank line becomes an empty line, not a skipped one. */
  lemma BlankLineEmpty(filename: string, prevLine: string, src: string)
    requires Base(filename) == SummaryName && AllSpace(src)
    ensures TocRewrite(filename, prevLine, src) == Ok([])
  {
    TrimRightSpaces([], src);
    assert [] + src == src;
    TrimLeftAllSpace(src);
  }

  lemma {:induction false} TrimLeftAllSpace(s: string)
    requires AllSpace(s)
    ensures TrimLeft(s) == []
    decreases |s|
  {
    if s != [] {
      TrimLeftAllSpace(s[1..]);
    }
  }

  /** A first-level heading ('#' and then anything but '#') is dropped from the
      sidebar, whatever white space surrounds it. */
  lemma TitleSkipped(filename: string, prevLine: string, lead: string, core: string, trail: string)
    requires Base(filename) == SummaryName && AllSpace(lead) && AllSpace(trail)
    requires Trimmed(core) && |core| >= 4 && core[0] == '#' && core[1] != '#'
    ensures TocRewrite(filename, prevLine, lead + core + trail) == Skip
    ensures SkipsNextLine(filename, lead + core + trail)
  {
    TrimSpaceAround(lead, core, trail);
  }

  /** A second-level heading "## X" (or "##X") becomes the root entry "* X". */
  lemma HeadingBecomesEntry(filename: string, prevLine: string, lead: string, x: string, trail: string)
    requires Base(filename) == SummaryName && AllSpace(lead) && AllSpace(trail)
    requires Trimmed(x)
    ensures TocRewrite(filename, prevLine, lead + ("## " + x) + trail) == Ok(AsteriskEntry + x)
    ensures |x| >= 2 ==> TocRewrite(filename, prevLine, lead + ("##" + x) + trail) == Ok(AsteriskEntry + x)
  {
    var h := "## " + x;
    assert h[0] == '#' && h[1] == '#' && h[2] == ' ' && h[3..] == x && h[|h| - 1] == x[|x| - 1];
    TrimSpaceAround(lead, h, trail);
    if |x| >= 2 {
      var g := "##" + x;
      assert g[0] == '#' && g[1] == '#' && g[2] == x[0] && g[2..] == x && g[|g| - 1] == x[|x| - 1];
      TrimSpaceAround(lead, g, trail);
    }
  }

  /** A '*' line is indented by two spaces exactly when the line written before it
      is an entry ("* " or "  * "); otherwise it comes back trimmed. */
  lemma EntryNesting(filename: string, prevLine: string, lead: string, core: string, trail: string)
    requires Base(filename) == SummaryName && AllSpace(lead) && AllSpace(trail)
    requires Trimmed(core) && |core| >= 4 && core[0] == '*'
    ensures TocRewrite(filename, prevLine, lead + core + trail) == Ok(Tab + core) <==> UnderEntry(prevLine)
    ensures !UnderEntry(prevLine) ==> TocRewrite(filename, prevLine, lead + core + trail) == Ok(core)
  {
    TrimSpaceAround(lead, core, trail);
    assert |Tab + core| != |core|;
  }

  /** Any other line of four bytes or more comes back trimmed. */
  lemma OtherLineTrimmed(filename: string, prevLine: string, lead: string, core: string, trail: string)
    requires Base(filename) == SummaryName && AllSpace(lead) && AllSpace(trail)
    requires Trimmed(core) && |core| >= 4 && core[0] != '#' && core[0] != '*'
    ensures TocRewrite(filename, prevLine, lead + core + trail) == Ok(core)
  {
    TrimSpaceAround(lead, core, trail);
  }

  /** Once a line counts, the line after it is read away when its second byte is
      '\n': a blank "\r\n" line, but also any one-byte line; a blank "\n" line
      goes only when another blank line follows it, and then only the first one. */
  lemma LineAfterEntryRead(filename: string, data: string, tail: ReadError, pos: nat, src: string)
    requires SkipsNextLine(filename, src) && pos + 1 < |data| && data[pos + 1] == '\n'
    ensures TocPos(filename, data, tail, pos, src) == if data[pos] == '\n' then pos + 1 else pos + 2
  {
    assert PeeksNewline(data, pos);
    var r := NextLine(data, pos, DefaultBufSize, tail);
    assert TocPos(filename, data, tail, pos, src) == r.1;
    SkippedLine(data, pos, DefaultBufSize, tail);
  }

  /** ... and otherwise stays where it is. */
  lemma LineAfterEntryKept(filename: string, data: string, tail: ReadError, pos: nat, src: string)
    requires pos <= |data| && !(pos + 1 < |data| && data[pos + 1] == '\n')
    ensures TocPos(filename, data, tail, pos, src) == pos
  {
  }

  /** Outside SUMMARY.md, and for short lines, the reader never moves. */
  lemma ReaderKept(filename: string, data: string, tail: ReadError, pos: nat, src: string)
    requires pos <= |data| && !SkipsNextLine(filename, src)
    ensures TocPos(filename, data, tail, pos, src) == pos
  {
  }
}
