/** What `parse` writes for documents of a given shape: fenced code copied byte
    for byte, plain lines written as they are, quotations kept apart, headings of
    the table of contents dropped, and a document with a page link without a
    title abandoned. */
module PipelineProperties {
  import opened Text
  import opened Paths
  import opened LineReader
  import opened Layout
  import opened Rewriters
  import opened RewriterProperties
  import opened Toc
  import opened Pipeline

  // ---------------------------------------------------------------------------
  // Lines as they stand in a document, and as the reader gives them

  /** The lines `ls`, each followed by "\n". */
  function Joined(ls: seq<string>): string {
    if ls == [] then [] else ls[0] + "\n" + Joined(ls[1..])
  }

  /** A line the reader gives back as it stands: no '\n' in it and no '\r' at its
      end (the reader drops a '\r' before the '\n'). */
  predicate ReadsBack(l: string) {
    NoNewline(l) && (l == [] || l[|l| - 1] != '\r')
  }

  /** `data` holds `s` at `pos`, byte by byte. */
  ghost predicate HoldsAt(data: string, pos: nat, s: string)
    decreases |s|
  {
    pos + |s| <= |data| && (s != [] ==> data[pos] == s[0] && HoldsAt(data, pos + 1, s[1..]))
  }

  lemma {:induction false} HoldsSlice(data: string, pos: nat, s: string)
    requires HoldsAt(data, pos, s)
    ensures data[pos..pos + |s|] == s
    decreases |s|
  {
    if s != [] {
      HoldsSlice(data, pos + 1, s[1..]);
      assert data[pos..pos + |s|] == [data[pos]] + data[pos + 1..pos + 1 + |s[1..]|];
      assert s == [s[0]] + s[1..];
    }
  }

  lemma {:induction false} HoldsSplit(data: string, pos: nat, a: string, b: string)
    requires HoldsAt(data, pos, a + b)
    ensures HoldsAt(data, pos, a) && HoldsAt(data, pos + |a|, b)
    decreases |a|
  {
    if a != [] {
      assert (a + b)[1..] == a[1..] + b;
      HoldsSplit(data, pos + 1, a[1..], b);
    } else {
      assert a + b == b;
    }
  }

  /** A line followed by "\n" is read back whole, and the reader moves past it. */
  lemma {:induction false} ReadBack(data: string, tail: ReadError, pos: nat, l: string)
    requires ReadsBack(l) && HoldsAt(data, pos, l + "\n")
    ensures NextLine(data, pos, DefaultBufSize, tail) == (Line(l), pos + |l| + 1)
  {
    HoldsSplit(data, pos, l, "\n");
    HoldsSlice(data, pos, l);
    LineUpToNewline(data, pos, DefaultBufSize, tail, |l|);
  }

  /** The reader at `pos` gives the line `l` and moves past it and its '\n'. */
  ghost predicate ReadsLine(read: Reader, pos: nat, l: string) {
    read(pos).0 == Line(l) && read(pos).1 == pos + |l| + 1
  }

  /** The reader, from `pos` on, gives the lines `ls` one after the other. */
  ghost predicate ReadsAs(read: Reader, pos: nat, ls: seq<string>)
    decreases |ls|
  {
    ls != [] ==> ReadsLine(read, pos, ls[0]) && ReadsAs(read, pos + |ls[0]| + 1, ls[1..])
  }

  /** The reader at `pos` reports the end of the document and stays there. */
  ghost predicate ReadsEnd(read: Reader, pos: nat) {
    read(pos).0.Error? && read(pos).1 == pos
  }

  /** Every line of `ls` is read back as it stands. */
  predicate AllReadBack(ls: seq<string>) {
    forall i :: 0 <= i < |ls| ==> ReadsBack(ls[i])
  }

  /** A document holding lines that read back as they stand, each followed by
      "\n", reads as those lines. */
  lemma {:induction false} LinesReadBack(data: string, tail: ReadError, pos: nat, ls: seq<string>)
    requires AllReadBack(ls) && HoldsAt(data, pos, Joined(ls))
    ensures ReadsAs(Reads(data, tail), pos, ls)
    decreases |ls|
  {
    if ls != [] {
      var l := ls[0];
      assert Joined(ls) == l + "\n" + Joined(ls[1..]);
      HoldsSplit(data, pos, l + "\n", Joined(ls[1..]));
      assert ReadsBack(ls[0]);
      ReadBack(data, tail, pos, l);
      forall i | 0 <= i < |ls[1..]|
        ensures ReadsBack(ls[1..][i])
      {
        assert ls[1..][i] == ls[i + 1];
      }
      LinesReadBack(data, tail, pos + |l| + 1, ls[1..]);
    }
  }

  /** At its last byte the document reports its end. */
  lemma DocumentEnds(data: string, tail: ReadError)
    ensures ReadsEnd(Reads(data, tail), |data|)
  {
    EndOfStream(data, DefaultBufSize, tail);
  }

  /** A document is held from any position on by what follows that position. */
  lemma {:induction false} HoldsRest(data: string, pos: nat)
    requires pos <= |data|
    ensures HoldsAt(data, pos, data[pos..])
    decreases |data| - pos
  {
    if pos < |data| {
      assert data[pos..][1..] == data[pos + 1..];
      HoldsRest(data, pos + 1);
    }
  }

  /** A document made of lines that read back as they stand, each ended by
      "\n", reads as those lines and then ends. */
  lemma DocumentOfLines(data: string, tail: ReadError, ls: seq<string>)
    requires AllReadBack(ls) && data == Joined(ls)
    ensures ReadsAs(Reads(data, tail), 0, ls)
    ensures ReadsEnd(Reads(data, tail), |Joined(ls)|)
  {
    HoldsRest(data, 0);
    assert data[0..] == data;
    LinesReadBack(data, tail, 0, ls);
    DocumentEnds(data, tail);
  }

  /** The first line of `[l] + ls`, and the rest after it. */
  lemma ReadsAsCons(read: Reader, pos: nat, l: string, ls: seq<string>)
    requires ReadsAs(read, pos, [l] + ls)
    ensures ReadsLine(read, pos, l) && ReadsAs(read, pos + |l| + 1, ls)
  {
    assert ([l] + ls)[0] == l && ([l] + ls)[1..] == ls;
  }

  /** A reader over `n` bytes that gives a line stays within them after it. */
  lemma LineWithin(read: Reader, n: nat, pos: nat, l: string)
    requires pos <= n && ReaderOn(read, n) && ReadsLine(read, pos, l)
    ensures pos + |l| + 1 <= n
  {
    assert read(pos).1 <= n;
  }

  // ---------------------------------------------------------------------------
  // Fenced code

  /** Lines inside a fence: none of them closes it. */
  predicate NoClose(ls: seq<string>) {
    forall i :: 0 <= i < |ls| ==> ls[i] != CodeSnippet
  }

  lemma NoCloseTail(ls: seq<string>)
    requires ls != [] && NoClose(ls)
    ensures ls[0] != CodeSnippet && NoClose(ls[1..])
  {
    forall i | 0 <= i < |ls[1..]|
      ensures ls[1..][i] != CodeSnippet
    {
      assert ls[1..][i] == ls[i + 1];
    }
  }

  /** The closing line of a fence is written with "\n" and ends the fence. */
  lemma FenceCloses(read: Reader, n: nat, pos: nat)
    requires pos <= n && ReaderOn(read, n) && ReadsLine(read, pos, CodeSnippet)
    ensures FenceLines(read, n, pos).0 == CodeSnippet + "\n"
    ensures FenceLines(read, n, pos).1 == pos + 4
    ensures FenceLines(read, n, pos).2
  {
  }

  /** Any other line of a fence is written with "\n", and the rest of the fence
      follows it. */
  lemma FenceContinues(read: Reader, n: nat, pos: nat, l: string)
    requires pos <= n && ReaderOn(read, n) && ReadsLine(read, pos, l) && l != CodeSnippet
    ensures pos + |l| + 1 <= n
    ensures var f, g := FenceLines(read, n, pos), FenceLines(read, n, pos + |l| + 1);
      f.0 == l + "\n" + g.0 && f.1 == g.1 && f.2 == g.2
  {
    LineWithin(read, n, pos, l);
  }

  /** At the end of the document a fence stops: nothing is written and it is
      reported open. */
  lemma FenceEnds(read: Reader, n: nat, pos: nat)
    requires pos <= n && ReaderOn(read, n) && ReadsEnd(read, pos)
    ensures FenceLines(read, n, pos) == ([], pos, false)
  {
  }

  /** The body of a fence and its closing line are written exactly as the reader
      gives them, and the fence is reported closed. */
  lemma {:induction false} FenceBodyCopied(read: Reader, n: nat, pos: nat, ls: seq<string>)
    requires pos <= n && ReaderOn(read, n)
    requires NoClose(ls) && ReadsAs(read, pos, ls + [CodeSnippet])
    ensures pos + |Joined(ls)| + 4 <= n
    ensures FenceLines(read, n, pos).0 == Joined(ls) + (CodeSnippet + "\n")
    ensures FenceLines(read, n, pos).1 == pos + |Joined(ls)| + 4
    ensures FenceLines(read, n, pos).2
    decreases |ls|
  {
    if ls == [] {
      assert ls + [CodeSnippet] == [CodeSnippet] + [];
      ReadsAsCons(read, pos, CodeSnippet, []);
      assert Joined(ls) + (CodeSnippet + "\n") == CodeSnippet + "\n";
      LineWithin(read, n, pos, CodeSnippet);
      FenceCloses(read, n, pos);
    } else {
      var l := ls[0];
      assert ls + [CodeSnippet] == [l] + (ls[1..] + [CodeSnippet]);
      ReadsAsCons(read, pos, l, ls[1..] + [CodeSnippet]);
      NoCloseTail(ls);
      FenceContinues(read, n, pos, l);
      FenceBodyCopied(read, n, pos + |l| + 1, ls[1..]);
      assert Joined(ls) == l + "\n" + Joined(ls[1..]);
      Associative(l + "\n", Joined(ls[1..]), CodeSnippet + "\n");
    }
  }

  /** A fence left open runs to the end of the document: every line is written as
      the reader gives it, and the fence is reported open. */
  lemma {:induction false} FenceUnclosed(read: Reader, n: nat, pos: nat, ls: seq<string>)
    requires pos <= n && ReaderOn(read, n)
    requires NoClose(ls) && ReadsAs(read, pos, ls) && ReadsEnd(read, pos + |Joined(ls)|)
    ensures pos + |Joined(ls)| <= n
    ensures FenceLines(read, n, pos) == (Joined(ls), pos + |Joined(ls)|, false)
    decreases |ls|
  {
    if ls == [] {
      FenceEnds(read, n, pos);
    } else {
      var l := ls[0];
      NoCloseTail(ls);
      FenceContinues(read, n, pos, l);
      assert Joined(ls) == l + "\n" + Joined(ls[1..]);
      FenceUnclosed(read, n, pos + |l| + 1, ls[1..]);
    }
  }

  /** A line opening a fence: written with "\n" together with the fence after
      it, after which the line last written is forgotten if the fence was
      closed. */
  lemma FenceOpens(step: LineStep, read: Reader, n: nat, pos: nat, prevLine: string, open: string)
    requires pos <= n && ReaderOn(read, n) && Advances(step, n)
    requires StartsWith(open, CodeSnippet) && ReadsLine(read, pos, open)
    ensures pos + |open| + 1 <= n
    ensures var f, t := FenceLines(read, n, pos + |open| + 1), NextTurn(step, read, n, pos, prevLine);
      t.Turn? && t.out == open + "\n" + f.0 && t.pos == f.1 && t.prevLine == if f.2 then [] else prevLine
  {
    LineWithin(read, n, pos, open);
  }

  /** An opening line of a fence: "```" and anything after it. */
  lemma FenceOpening(info: string)
    ensures StartsWith(CodeSnippet + info, CodeSnippet)
  {
    assert (CodeSnippet + info)[..|CodeSnippet|] == CodeSnippet;
  }

  /** A fence in a document, whatever the replacers: its opening line, body and
      closing line are written as the reader gives them, and the line after it is
      written as if nothing had been written before it. */
  lemma FenceInDocument(step: LineStep, read: Reader, n: nat, pos: nat, prevLine: string, info: string, ls: seq<string>)
    requires pos <= n && ReaderOn(read, n) && Advances(step, n) && NoClose(ls)
    requires ReadsAs(read, pos, [CodeSnippet + info] + (ls + [CodeSnippet]))
    ensures var text := (CodeSnippet + info + "\n") + (Joined(ls) + (CodeSnippet + "\n"));
      pos + |text| <= n &&
      Render(step, read, n, pos, prevLine).out == text + Render(step, read, n, pos + |text|, []).out &&
      Render(step, read, n, pos, prevLine).ok == Render(step, read, n, pos + |text|, []).ok
  {
    var open := CodeSnippet + info;
    var body := Joined(ls) + (CodeSnippet + "\n");
    ReadsAsCons(read, pos, open, ls + [CodeSnippet]);
    FenceOpening(info);
    LineWithin(read, n, pos, open);
    FenceBodyCopied(read, n, pos + |open| + 1, ls);
    ClosedFenceRendered(step, read, n, pos, prevLine, open, body, pos + |(open + "\n") + body|);
  }

  /** A fence left open takes the rest of the document with it, written as the
      reader gives it; the document ends there without error. */
  lemma FenceToEnd(step: LineStep, read: Reader, n: nat, pos: nat, prevLine: string, info: string, ls: seq<string>)
    requires pos <= n && ReaderOn(read, n) && Advances(step, n) && NoClose(ls)
    requires ReadsAs(read, pos, [CodeSnippet + info] + ls)
    requires ReadsEnd(read, pos + |CodeSnippet + info| + 1 + |Joined(ls)|)
    ensures Render(step, read, n, pos, prevLine) == Rendered((CodeSnippet + info + "\n") + Joined(ls), true)
  {
    var open := CodeSnippet + info;
    ReadsAsCons(read, pos, open, ls);
    FenceOpening(info);
    LineWithin(read, n, pos, open);
    FenceUnclosed(read, n, pos + |open| + 1, ls);
    OpenFenceRendered(step, read, n, pos, prevLine, open, Joined(ls), pos + |open| + 1 + |Joined(ls)|);
  }

  /** What a fence opening at `pos` makes of the whole document, when the fence
      after it reads as `body` and is closed, leaving the reader at `q`. */
  lemma ClosedFenceRendered(step: LineStep, read: Reader, n: nat, pos: nat, prevLine: string,
                            open: string, body: string, q: nat)
    requires pos <= n && ReaderOn(read, n) && Advances(step, n)
    requires StartsWith(open, CodeSnippet) && ReadsLine(read, pos, open) && pos + |open| + 1 <= n
    requires FenceLines(read, n, pos + |open| + 1) == (body, q, true)
    ensures q <= n
    ensures Render(step, read, n, pos, prevLine).out == (open + "\n") + body + Render(step, read, n, q, []).out
    ensures Render(step, read, n, pos, prevLine).ok == Render(step, read, n, q, []).ok
  {
    FenceOpens(step, read, n, pos, prevLine, open);
    RenderTurn(step, read, n, pos, prevLine, (open + "\n") + body, q, []);
  }

  /** ... and when the fence after it reads as `body` and runs to the end of the
      document, at `q`. */
  lemma OpenFenceRendered(step: LineStep, read: Reader, n: nat, pos: nat, prevLine: string,
                          open: string, body: string, q: nat)
    requires pos <= n && ReaderOn(read, n) && Advances(step, n)
    requires StartsWith(open, CodeSnippet) && ReadsLine(read, pos, open) && pos + |open| + 1 <= n
    requires FenceLines(read, n, pos + |open| + 1) == (body, q, false) && ReadsEnd(read, q)
    ensures Render(step, read, n, pos, prevLine) == Rendered((open + "\n") + body, true)
  {
    FenceOpens(step, read, n, pos, prevLine, open);
    RenderTurn(step, read, n, pos, prevLine, (open + "\n") + body, q, prevLine);
    RenderStop(step, read, n, q, prevLine, true);
    assert (open + "\n") + body + [] == (open + "\n") + body;
  }

  // ---------------------------------------------------------------------------
  // Rendering turn by turn

  /** A turn writes its output, and the rest of the document follows from where
      it leaves the reader. */
  lemma RenderTurn(step: LineStep, read: Reader, n: nat, pos: nat, prevLine: string, out: string, q: nat, prev: string)
    requires pos <= n && ReaderOn(read, n) && Advances(step, n)
    requires NextTurn(step, read, n, pos, prevLine) == Turn(out, q, prev)
    ensures q <= n
    ensures Render(step, read, n, pos, prevLine).out == out + Render(step, read, n, q, prev).out
    ensures Render(step, read, n, pos, prevLine).ok == Render(step, read, n, q, prev).ok
  {
  }

  /** A stop ends the document: nothing more is written. */
  lemma RenderStop(step: LineStep, read: Reader, n: nat, pos: nat, prevLine: string, ok: bool)
    requires pos <= n && ReaderOn(read, n) && Advances(step, n)
    requires NextTurn(step, read, n, pos, prevLine) == Stop(ok)
    ensures Render(step, read, n, pos, prevLine) == Rendered([], ok)
  {
  }

  /** The end of the document ends `parse` without error. */
  lemma RenderEnd(step: LineStep, read: Reader, n: nat, pos: nat, prevLine: string)
    requires pos <= n && ReaderOn(read, n) && Advances(step, n) && ReadsEnd(read, pos)
    ensures Render(step, read, n, pos, prevLine) == Rendered([], true)
  {
    RenderStop(step, read, n, pos, prevLine, true);
  }

  // ---------------------------------------------------------------------------
  // Lines through the replacers

  /** A line that does not open a fence and that the replacers skip: nothing is
      written, and the line last written is kept. */
  lemma LineSkipped(step: LineStep, read: Reader, n: nat, pos: nat, prevLine: string, l: string)
    requires pos <= n && ReaderOn(read, n) && Advances(step, n)
    requires ReadsLine(read, pos, l) && !StartsWith(l, CodeSnippet)
    requires pos + |l| + 1 <= n && step(pos + |l| + 1, prevLine, l).0 == Skip
    ensures var q := step(pos + |l| + 1, prevLine, l).1;
      q <= n && Render(step, read, n, pos, prevLine) == Render(step, read, n, q, prevLine)
  {
    var q := step(pos + |l| + 1, prevLine, l).1;
    RenderTurn(step, read, n, pos, prevLine, [], q, prevLine);
    assert [] + Render(step, read, n, q, prevLine).out == Render(step, read, n, q, prevLine).out;
  }

  /** A line that does not open a fence and that a replacer fails on: the
      document is abandoned, and nothing more is written. */
  lemma LineFailed(step: LineStep, read: Reader, n: nat, pos: nat, prevLine: string, l: string)
    requires pos <= n && ReaderOn(read, n) && Advances(step, n)
    requires ReadsLine(read, pos, l) && !StartsWith(l, CodeSnippet)
    requires pos + |l| + 1 <= n && step(pos + |l| + 1, prevLine, l).0 == Fail
    ensures Render(step, read, n, pos, prevLine) == Rendered([], false)
  {
    RenderStop(step, read, n, pos, prevLine, false);
  }

  /** A line that does not open a fence and that the replacers turn into `m`:
      `m` is written, after a blank line when it and the line last written are
      both quotations, and becomes the line last written. */
  lemma LineWritten(step: LineStep, read: Reader, n: nat, pos: nat, prevLine: string, l: string, m: string)
    requires pos <= n && ReaderOn(read, n) && Advances(step, n)
    requires ReadsLine(read, pos, l) && !StartsWith(l, CodeSnippet)
    requires pos + |l| + 1 <= n && step(pos + |l| + 1, prevLine, l).0 == Ok(m)
    ensures var q := step(pos + |l| + 1, prevLine, l).1;
      q <= n &&
      Render(step, read, n, pos, prevLine).out == Emit(prevLine, m) + Render(step, read, n, q, m).out &&
      Render(step, read, n, pos, prevLine).ok == Render(step, read, n, q, m).ok
  {
    RenderTurn(step, read, n, pos, prevLine, Emit(prevLine, m), step(pos + |l| + 1, prevLine, l).1, m);
  }

  /** A line of an ordinary page that none of the replacers has anything to do
      with: no backslash, no '{', and no '[' unless links are kept. */
  predicate Plain(filename: string, cfg: Config, line: string) {
    Base(filename) != SummaryName && Lacks(line, '\\') && Lacks(line, '{') && (cfg.keepLinks || Lacks(line, '['))
  }

  /** A replacer that hands a line on: the rest of the loop takes over with that
      line, from where the replacer left the reader. */
  lemma ChainOn(rs: seq<Replacer>, data: string, tail: ReadError, pos: nat, prevLine: string, line: string, l: string, q: nat)
    requires rs != [] && pos <= |data|
    requires Step(rs[0], data, tail, pos, prevLine, line) in {(Ok(l), q), (NotResponsible(l), q)}
    ensures q <= |data|
    ensures Chain(rs, data, tail, pos, prevLine, line) == Chain(rs[1..], data, tail, q, prevLine, l)
  {
  }

  /** Outside SUMMARY.md `tocEntry` is not responsible. */
  lemma TocStepOther(filename: string, data: string, tail: ReadError, pos: nat, prevLine: string, line: string)
    requires pos <= |data| && Base(filename) != SummaryName
    ensures Step(TocEntryFor(filename), data, tail, pos, prevLine, line) == (NotResponsible(line), pos)
  {
    ReaderKept(filename, data, tail, pos, line);
  }

  lemma ParensStepPlain(data: string, tail: ReadError, pos: nat, prevLine: string, line: string)
    requires pos <= |data| && Lacks(line, '\\')
    ensures Step(ParensUnescaper, data, tail, pos, prevLine, line) == (Ok(line), pos)
  {
    NoBackslashUnchanged(line);
  }

  lemma PageRefStepPlain(data: string, tail: ReadError, pos: nat, prevLine: string, line: string)
    requires pos <= |data| && Lacks(line, '{')
    ensures Step(PageRefUnescaper, data, tail, pos, prevLine, line) == (Ok(line), pos)
  {
    NoBraceUnchanged(line);
  }

  lemma LinkStepPlain(keepLinks: bool, wikiRepo: string, data: string, tail: ReadError, pos: nat, prevLine: string, line: string)
    requires pos <= |data| && (keepLinks || Lacks(line, '['))
    ensures Step(LinkUnescaper(keepLinks, wikiRepo), data, tail, pos, prevLine, line) == (Ok(line), pos)
  {
    if !keepLinks {
      NoBracketUnchanged(wikiRepo, line);
    }
  }

  /** Such a line comes out of the replacers as it went in, and the reader stays
      where it is. */
  lemma PlainChain(filename: string, cfg: Config, data: string, tail: ReadError, pos: nat, prevLine: string, line: string)
    requires pos <= |data| && Plain(filename, cfg, line)
    ensures Chain(Replacers(filename, cfg), data, tail, pos, prevLine, line) == (Ok(line), pos)
  {
    var rs := Replacers(filename, cfg);
    TocStepOther(filename, data, tail, pos, prevLine, line);
    ChainOn(rs, data, tail, pos, prevLine, line, line, pos);
    ParensStepPlain(data, tail, pos, prevLine, line);
    ChainOn(rs[1..], data, tail, pos, prevLine, line, line, pos);
    PageRefStepPlain(data, tail, pos, prevLine, line);
    ChainOn(rs[2..], data, tail, pos, prevLine, line, line, pos);
    LinkStepPlain(cfg.keepLinks, cfg.wikiRepo, data, tail, pos, prevLine, line);
    ChainOn(rs[3..], data, tail, pos, prevLine, line, line, pos);
    assert rs[1..][1..] == rs[2..] && rs[2..][1..] == rs[3..] && rs[3..][1..] == [];
  }

  /** A step that hands `line` back unchanged, wherever the reader stands and
      whatever was written before, and leaves the reader where it is. */
  ghost predicate Leaves(step: LineStep, n: nat, line: string) {
    forall q: nat, prevLine: string :: q <= n ==> step(q, prevLine, line) == (Ok(line), q)
  }

  /** The replacers of a document leave a plain line alone. */
  lemma PlainLeft(filename: string, cfg: Config, data: string, tail: ReadError, line: string)
    requires Plain(filename, cfg, line)
    ensures Leaves(Steps(Replacers(filename, cfg), data, tail), |data|, line)
  {
    forall q: nat, prevLine: string | q <= |data|
      ensures Steps(Replacers(filename, cfg), data, tail)(q, prevLine, line) == (Ok(line), q)
    {
      PlainChain(filename, cfg, data, tail, q, prevLine, line);
    }
  }

  /** A line the replacers leave alone is written as it stands. */
  lemma PlainLineWritten(step: LineStep, read: Reader, n: nat, pos: nat, prevLine: string, line: string)
    requires pos <= n && ReaderOn(read, n) && Advances(step, n)
    requires ReadsLine(read, pos, line) && !StartsWith(line, CodeSnippet) && Leaves(step, n, line)
    ensures pos + |line| + 1 <= n
    ensures Render(step, read, n, pos, prevLine).out == Emit(prevLine, line) + Render(step, read, n, pos + |line| + 1, line).out
    ensures Render(step, read, n, pos, prevLine).ok == Render(step, read, n, pos + |line| + 1, line).ok
  {
    LineWithin(read, n, pos, line);
    assert step(pos + |line| + 1, prevLine, line) == (Ok(line), pos + |line| + 1);
    LineWritten(step, read, n, pos, prevLine, line, line);
  }

  /** Two quotation lines in a row that the replacers leave alone are kept apart
      by a blank line, so that the wiki does not run them together. */
  lemma QuotesKeptApart(step: LineStep, read: Reader, n: nat, pos: nat, prevLine: string, a: string, b: string)
    requires pos <= n && ReaderOn(read, n) && Advances(step, n) && ReadsAs(read, pos, [a, b])
    requires Leaves(step, n, a) && Leaves(step, n, b)
    requires |a| > 0 && a[0] == '>' && |b| > 0 && b[0] == '>'
    ensures pos + |a| + |b| + 2 <= n
    ensures var q := pos + |a| + |b| + 2;
      Render(step, read, n, pos, prevLine).out == Emit(prevLine, a) + ("\n" + b + "\n") + Render(step, read, n, q, b).out &&
      Render(step, read, n, pos, prevLine).ok == Render(step, read, n, q, b).ok
  {
    var q := pos + |a| + |b| + 2;
    ReadsAsCons(read, pos, a, [b]);
    ReadsAsCons(read, pos + |a| + 1, b, []);
    FirstByteDiffers(a, CodeSnippet);
    FirstByteDiffers(b, CodeSnippet);
    PlainLineWritten(step, read, n, pos, prevLine, a);
    PlainLineWritten(step, read, n, pos + |a| + 1, a, b);
    assert Emit(a, b) == "\n" + b + "\n";
    Associative(Emit(prevLine, a), "\n" + b + "\n", Render(step, read, n, q, b).out);
  }

  /** A line that `tocEntry` skips is skipped by the replacers, and the reader
      moves on as `tocEntry` left it. */
  lemma SkipChain(filename: string, cfg: Config, data: string, tail: ReadError, pos: nat, prevLine: string, line: string)
    requires pos <= |data| && TocRewrite(filename, prevLine, line) == Skip
    ensures Chain(Replacers(filename, cfg), data, tail, pos, prevLine, line) == (Skip, TocPos(filename, data, tail, pos, line))
  {
    TocStepSkip(filename, data, tail, pos, prevLine, line);
  }

  lemma TocStepSkip(filename: string, data: string, tail: ReadError, pos: nat, prevLine: string, line: string)
    requires pos <= |data| && TocRewrite(filename, prevLine, line) == Skip
    ensures Step(TocEntryFor(filename), data, tail, pos, prevLine, line) == (Skip, TocPos(filename, data, tail, pos, line))
  {
  }

  /** In SUMMARY.md a first-level heading (the book title) is skipped by the
      replacers, and the reader moves on as `tocEntry` left it. */
  lemma TitleChain(filename: string, cfg: Config, data: string, tail: ReadError, pos: nat, prevLine: string,
                   lead: string, core: string, trail: string)
    requires pos <= |data| && Base(filename) == SummaryName && AllSpace(lead) && AllSpace(trail)
    requires Trimmed(core) && |core| >= 4 && core[0] == '#' && core[1] != '#'
    ensures Chain(Replacers(filename, cfg), data, tail, pos, prevLine, lead + core + trail) ==
      (Skip, TocPos(filename, data, tail, pos, lead + core + trail))
  {
    TitleSkipped(filename, prevLine, lead, core, trail);
    SkipChain(filename, cfg, data, tail, pos, prevLine, lead + core + trail);
  }

  /** ... and such a line does not open a fence. */
  lemma TitleNotFence(lead: string, core: string, trail: string)
    requires AllSpace(lead) && core != [] && core[0] == '#'
    ensures !StartsWith(lead + core + trail, CodeSnippet)
  {
    var line := lead + core + trail;
    if lead != [] {
      assert line[0] == lead[0];
    } else {
      assert line[0] == core[0];
    }
    FirstByteDiffers(line, CodeSnippet);
  }

  /** On an ordinary page whose links are rewritten, a link to a page without a
      title makes the replacers fail. */
  lemma PageLinkChain(filename: string, cfg: Config, data: string, tail: ReadError, pos: nat, prevLine: string,
                      a: string, u: string, b: string)
    requires pos <= |data| && Base(filename) != SummaryName && !cfg.keepLinks
    requires Lacks(a + LinkText([], u) + b, '\\') && Lacks(a + LinkText([], u) + b, '{')
    requires Lacks(a, '[') && Lacks(b, '[') && PlainLink([], u)
    requires !StartsWith(u, HttpPrefix) && EndsWith(u, MarkdownSuffix)
    ensures Chain(Replacers(filename, cfg), data, tail, pos, prevLine, a + LinkText([], u) + b) == (Fail, pos)
  {
    var line := a + LinkText([], u) + b;
    var rs := Replacers(filename, cfg);
    TocStepOther(filename, data, tail, pos, prevLine, line);
    ChainOn(rs, data, tail, pos, prevLine, line, line, pos);
    ParensStepPlain(data, tail, pos, prevLine, line);
    ChainOn(rs[1..], data, tail, pos, prevLine, line, line, pos);
    PageRefStepPlain(data, tail, pos, prevLine, line);
    ChainOn(rs[2..], data, tail, pos, prevLine, line, line, pos);
    PageLinkWithoutTitle(cfg.wikiRepo, a, u, b);
    assert rs[1..][1..] == rs[2..] && rs[2..][1..] == rs[3..] && rs[3..][0] == LinkUnescaper(false, cfg.wikiRepo);
  }

  // ---------------------------------------------------------------------------
  // Whole documents

  /** The first line of a document, when it reads back as it stands. */
  lemma FirstLineRead(tail: ReadError, line: string, rest: string)
    requires ReadsBack(line)
    ensures ReadsLine(Reads(line + "\n" + rest, tail), 0, line)
  {
    var data := line + "\n" + rest;
    HoldsRest(data, 0);
    assert data[0..] == (line + "\n") + rest;
    HoldsSplit(data, 0, line + "\n", rest);
    ReadBack(data, tail, 0, line);
  }

  /** A page whose first line links to a page without a title is abandoned
      before anything is written. */
  lemma AbandonedDocument(filename: string, cfg: Config, tail: ReadError, a: string, u: string, b: string, rest: string)
    requires Base(filename) != SummaryName && !cfg.keepLinks
    requires ReadsBack(a + LinkText([], u) + b) && !StartsWith(a + LinkText([], u) + b, CodeSnippet)
    requires Lacks(a + LinkText([], u) + b, '\\') && Lacks(a + LinkText([], u) + b, '{')
    requires Lacks(a, '[') && Lacks(b, '[') && PlainLink([], u)
    requires !StartsWith(u, HttpPrefix) && EndsWith(u, MarkdownSuffix)
    ensures Document(filename, cfg, (a + LinkText([], u) + b) + "\n" + rest, tail) == Rendered([], false)
  {
    var line := a + LinkText([], u) + b;
    var data := line + "\n" + rest;
    FirstLineRead(tail, line, rest);
    PageLinkChain(filename, cfg, data, tail, |line| + 1, [], a, u, b);
    FailedDocument(filename, cfg, data, tail, line);
  }

  /** A page whose first line the replacers fail on is abandoned before anything
      is written. */
  lemma FailedDocument(filename: string, cfg: Config, data: string, tail: ReadError, line: string)
    requires ReadsLine(Reads(data, tail), 0, line) && !StartsWith(line, CodeSnippet) && |line| + 1 <= |data|
    requires Chain(Replacers(filename, cfg), data, tail, |line| + 1, [], line).0 == Fail
    ensures Document(filename, cfg, data, tail) == Rendered([], false)
  {
    LineFailed(Steps(Replacers(filename, cfg), data, tail), Reads(data, tail), |data|, 0, [], line);
  }

  /** Two quotation lines that the replacers leave alone, and then the end: they
      are written with a blank line between them. */
  lemma QuotesRendered(step: LineStep, read: Reader, n: nat, a: string, b: string)
    requires ReaderOn(read, n) && Advances(step, n) && ReadsAs(read, 0, [a, b]) && ReadsEnd(read, |a| + |b| + 2)
    requires Leaves(step, n, a) && Leaves(step, n, b)
    requires |a| > 0 && a[0] == '>' && |b| > 0 && b[0] == '>'
    ensures Render(step, read, n, 0, []) == Rendered(a + "\n" + "\n" + b + "\n", true)
  {
    QuotesKeptApart(step, read, n, 0, [], a, b);
    RenderEnd(step, read, n, |a| + |b| + 2, b);
    QuoteText(a, b);
  }

  /** The first of two lines is written with no blank line before it. */
  lemma QuoteText(a: string, b: string)
    ensures Emit([], a) + ("\n" + b + "\n") + [] == a + "\n" + "\n" + b + "\n"
  {
    assert Emit([], a) == a + "\n";
  }

  /** A page of two quotation lines that the replacers leave alone comes out
      with a blank line between them. */
  lemma QuotedDocument(filename: string, cfg: Config, tail: ReadError, a: string, b: string)
    requires ReadsBack(a) && ReadsBack(b) && Plain(filename, cfg, a) && Plain(filename, cfg, b)
    requires |a| > 0 && a[0] == '>' && |b| > 0 && b[0] == '>'
    ensures Document(filename, cfg, a + "\n" + b + "\n", tail) == Rendered(a + "\n" + "\n" + b + "\n", true)
  {
    var data := a + "\n" + b + "\n";
    JoinedTwo(a, b);
    DocumentOfLines(data, tail, [a, b]);
    PlainLeft(filename, cfg, data, tail, a);
    PlainLeft(filename, cfg, data, tail, b);
    QuotesRendered(Steps(Replacers(filename, cfg), data, tail), Reads(data, tail), |data|, a, b);
  }

  /** A closed fence, and then the end: written byte for byte. */
  lemma FenceRendered(step: LineStep, read: Reader, n: nat, info: string, ls: seq<string>)
    requires ReaderOn(read, n) && Advances(step, n) && NoClose(ls)
    requires ReadsAs(read, 0, [CodeSnippet + info] + (ls + [CodeSnippet]))
    requires ReadsEnd(read, |Joined([CodeSnippet + info] + (ls + [CodeSnippet]))|)
    ensures Render(step, read, n, 0, []) == Rendered(Joined([CodeSnippet + info] + (ls + [CodeSnippet])), true)
  {
    var text := Joined([CodeSnippet + info] + (ls + [CodeSnippet]));
    FenceInDocument(step, read, n, 0, [], info, ls);
    JoinedFence(info, ls);
    RenderEnd(step, read, n, |text|, []);
    assert text + [] == text;
  }

  /** The closing line of a fence reads back as it stands. */
  lemma CloseReadsBack()
    ensures ReadsBack(CodeSnippet)
  {
    assert CodeSnippet[|CodeSnippet| - 1] == '`';
    assert forall i :: 0 <= i < |CodeSnippet| ==> CodeSnippet[i] == '`';
  }

  /** A page holding only a closed fence comes out byte for byte, whatever the
      replacers would have made of its lines. */
  lemma FencedDocument(filename: string, cfg: Config, tail: ReadError, info: string, ls: seq<string>)
    requires ReadsBack(CodeSnippet + info) && AllReadBack(ls) && NoClose(ls)
    ensures var data := Joined([CodeSnippet + info] + (ls + [CodeSnippet]));
      Document(filename, cfg, data, tail) == Rendered(data, true)
  {
    var lines := [CodeSnippet + info] + (ls + [CodeSnippet]);
    var data := Joined(lines);
    CloseReadsBack();
    forall i | 0 <= i < |lines|
      ensures ReadsBack(lines[i])
    {
      if 0 < i <= |ls| {
        assert lines[i] == ls[i - 1];
      }
    }
    DocumentOfLines(data, tail, lines);
    FenceRendered(Steps(Replacers(filename, cfg), data, tail), Reads(data, tail), |data|, info, ls);
  }

  lemma {:induction false} JoinedAppend(ls: seq<string>, ms: seq<string>)
    ensures Joined(ls + ms) == Joined(ls) + Joined(ms)
    decreases |ls|
  {
    if ls == [] {
      assert ls + ms == ms;
    } else {
      assert (ls + ms)[1..] == ls[1..] + ms;
      JoinedAppend(ls[1..], ms);
      Associative(ls[0] + "\n", Joined(ls[1..]), Joined(ms));
    }
  }

  /** The bytes of a closed fence, as its lines. */
  lemma JoinedFence(info: string, ls: seq<string>)
    ensures Joined([CodeSnippet + info] + (ls + [CodeSnippet])) ==
      (CodeSnippet + info + "\n") + (Joined(ls) + (CodeSnippet + "\n"))
  {
    JoinedAppend([CodeSnippet + info], ls + [CodeSnippet]);
    JoinedAppend(ls, [CodeSnippet]);
    assert Joined([CodeSnippet + info]) == CodeSnippet + info + "\n" + Joined([]);
    assert Joined([CodeSnippet]) == CodeSnippet + "\n" + Joined([]);
  }

  lemma JoinedTwo(a: string, b: string)
    ensures Joined([a, b]) == a + "\n" + b + "\n"
  {
    assert [a, b][1..] == [b];
    assert Joined([b]) == b + "\n" + Joined([]);
  }
}
