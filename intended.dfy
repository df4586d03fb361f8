/** The intended `parse`, as the code's comments describe it: a read error
    reported, no line lost at the end of the stream, blank lines of the table of
    contents dropped, and each link rewritten within its own span.  It is built
    from the definitions of `Corrections` on the same read loop `Render` as the
    code. */
module Intended {
  import opened Text
  import opened Paths
  import opened LineReader
  import opened Rewriters
  import opened Toc
  import opened Pipeline
  import opened PipelineProperties
  import opened Corrections

  /** `parser.readLine` as intended, over the document `data` ended by `tail`,
      as a reader. */
  function ReadsKept(data: string, tail: ReadError): (read: Reader)
    ensures ReaderOn(read, |data|)
    ensures forall pos: nat {:trigger NextLineKept(data, pos, DefaultBufSize, tail)} :: pos <= |data| ==>
      read(pos) == NextLineKept(data, pos, DefaultBufSize, tail)
  {
    (pos: nat) => if pos <= |data| then NextLineKept(data, pos, DefaultBufSize, tail) else (Error(tail), pos)
  }

  /** The replacers after `tocEntry`: `unescapeParens`, `unescapePageRefs`, and
      `unescapeLinks` rewriting each link within its span. */
  function LaterReplacers(cfg: Config, line: string): (r: Outcome)
    ensures r.Ok? || r.Fail?
  {
    ScopedLinks(cfg.keepLinks, cfg.wikiRepo, UnescapedPageRefs(UnescapedParens(line)))
  }

  /** The replacer loop as intended: `tocEntry` drops blank lines of SUMMARY.md
      and reads away only a blank line after a line that counts. */
  function IntendedChain(filename: string, cfg: Config, data: string, tail: ReadError, pos: nat, prevLine: string, line: string): (res: (Outcome, nat))
    requires pos <= |data|
    ensures pos <= res.1 <= |data|
    ensures res.0.Ok? || res.0.Skip? || res.0.Fail?
  {
    var q := TocPosBlank(filename, data, tail, pos, line);
    var o := TocRewriteBlankSkipped(filename, prevLine, line);
    if o.Skip? || o.Fail? then (o, q) else (LaterReplacers(cfg, o.line), q)
  }

  /** The replacer loop as intended, as a step. */
  function IntendedSteps(filename: string, cfg: Config, data: string, tail: ReadError): (step: LineStep)
    ensures Advances(step, |data|)
    ensures forall pos: nat, prevLine: string, line: string {:trigger IntendedChain(filename, cfg, data, tail, pos, prevLine, line)} ::
      pos <= |data| ==> step(pos, prevLine, line) == IntendedChain(filename, cfg, data, tail, pos, prevLine, line)
  {
    (pos: nat, prevLine: string, line: string) =>
      if pos <= |data| then IntendedChain(filename, cfg, data, tail, pos, prevLine, line) else (Ok(line), pos)
  }

  /** What `parse` was meant to write for the book file `filename`, and whether
      it ends without error: not when a replacer fails, and not when the stream
      ends with an error other than end of file. */
  ghost function IntendedDocument(filename: string, cfg: Config, data: string, tail: ReadError): (d: Rendered)
    ensures tail == Failed ==> !d.ok
  {
    var r := Render(IntendedSteps(filename, cfg, data, tail), ReadsKept(data, tail), |data|, 0, []);
    Rendered(r.out, r.ok && tail == EOF)
  }

  /** As intended, a blank line of SUMMARY.md writes nothing: the document goes
      on after it as if it were not there, and the line last written is kept,
      so an entry after it is still nested under the entry before it. */
  lemma BlankLineDropped(filename: string, cfg: Config, data: string, tail: ReadError, pos: nat, prevLine: string, l: string)
    requires Base(filename) == SummaryName && pos <= |data|
    requires ReadsLine(ReadsKept(data, tail), pos, l) && AllSpace(l)
    ensures var step, read := IntendedSteps(filename, cfg, data, tail), ReadsKept(data, tail);
      pos + |l| + 1 <= |data| &&
      Render(step, read, |data|, pos, prevLine) == Render(step, read, |data|, pos + |l| + 1, prevLine)
  {
    var step, read := IntendedSteps(filename, cfg, data, tail), ReadsKept(data, tail);
    var q := pos + |l| + 1;
    assert q <= |data| by { assert ReaderOn(read, |data|); }
    assert !StartsWith(l, CodeSnippet) && step(q, prevLine, l) == (Skip, q) by {
      BlankStep(filename, cfg, data, tail, q, prevLine, l);
    }
    SkippedInPlace(step, read, |data|, pos, prevLine, l);
  }

  /** A skipped line that leaves the reader after it: the loop goes on there. */
  lemma SkippedInPlace(step: LineStep, read: Reader, n: nat, pos: nat, prevLine: string, l: string)
    requires pos <= n && ReaderOn(read, n) && Advances(step, n)
    requires ReadsLine(read, pos, l) && !StartsWith(l, CodeSnippet)
    requires pos + |l| + 1 <= n && step(pos + |l| + 1, prevLine, l) == (Skip, pos + |l| + 1)
    ensures Render(step, read, n, pos, prevLine) == Render(step, read, n, pos + |l| + 1, prevLine)
  {
    LineSkipped(step, read, n, pos, prevLine, l);
  }

  /** The intended loop skips a blank line of SUMMARY.md and leaves the reader. */
  lemma BlankStep(filename: string, cfg: Config, data: string, tail: ReadError, q: nat, prevLine: string, l: string)
    requires Base(filename) == SummaryName && q <= |data| && AllSpace(l)
    ensures !StartsWith(l, CodeSnippet)
    ensures IntendedSteps(filename, cfg, data, tail)(q, prevLine, l) == (Skip, q)
  {
    assert TrimSpace(l) == [] by { TrimLeftAllSpace(l); }
    assert !SkipsNextLine(filename, l);
    assert IntendedChain(filename, cfg, data, tail, q, prevLine, l) == (Skip, q);
  }

  /** `parse` with its read loop ended as intended: a read error other than end
      of file is returned instead of being taken for the end of the document. */
  method ParseReporting(filename: string, cfg: Config, p: Parser, w: Writer) returns (ok: bool)
    requires p.Valid()
    modifies p`pos, p`prevLine, w
    ensures p.Valid()
    ensures var r := Render(Steps(Replacers(filename, cfg), p.data, p.tail), Reads(p.data, p.tail), |p.data|, old(p.pos), old(p.prevLine));
      w.written == old(w.written) + r.out && ok == (r.ok && p.tail == EOF)
  {
    ok := Parse(filename, cfg, p, w);
    if p.tail != EOF {
      ok := false;
    }
  }

  /** As written, a document whose stream fails before its first byte is
      taken for an empty document converted without error. */
  lemma ReadErrorIgnored(filename: string, cfg: Config)
    ensures Document(filename, cfg, [], Failed) == Rendered([], true)
  {
    DocumentEnds([], Failed);
    RenderEnd(Steps(Replacers(filename, cfg), [], Failed), Reads([], Failed), 0, 0, []);
  }

  /** As intended, the same document reports the error. */
  lemma ReadErrorReported(filename: string, cfg: Config)
    ensures IntendedDocument(filename, cfg, [], Failed) == Rendered([], false)
  {
    var read := ReadsKept([], Failed);
    assert ReadsEnd(read, 0) by {
      assert read(0) == NextLineKept([], 0, DefaultBufSize, Failed);
    }
    RenderEnd(IntendedSteps(filename, cfg, [], Failed), read, 0, 0, []);
  }
}
