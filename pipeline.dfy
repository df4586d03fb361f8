/** `parse`: a document read line by line, fenced code copied as it is, every
    other line sent through the replacers in order, and the results written. */
module Pipeline {
  import opened Text
  import opened Paths
  import opened LineReader
  import opened Rewriters
  import opened Toc

  /** The opening and closing line of fenced code. */
  const CodeSnippet := "```"

  /** The command-line settings the replacers read. */
  datatype Config = Config(keepLinks: bool, wikiRepo: string)

  /** The output writer: the bytes handed to it so far. */
  class Writer {
    var written: string

    constructor ()
      ensures written == []
    {
      written := [];
    }

    method Write(b: string)
      modifies this
      ensures written == old(written) + b
    {
      written := written + b;
    }
  }

  // ---------------------------------------------------------------------------
  // The replacers

  datatype Replacer =
    | TocEntryFor(filename: string)
    | ParensUnescaper
    | PageRefUnescaper
    | LinkUnescaper(keepLinks: bool, wikiRepo: string)

  /** The replacers of a document, in the order `parse` applies them. */
  function Replacers(filename: string, cfg: Config): seq<Replacer> {
    [TocEntryFor(filename), ParensUnescaper, PageRefUnescaper, LinkUnescaper(cfg.keepLinks, cfg.wikiRepo)]
  }

  /** One replacer applied to `line` with the reader at `pos`: its outcome and
      where the reader stands after it (only the table of contents reads on). */
  function Step(r: Replacer, data: string, tail: ReadError, pos: nat, prevLine: string, line: string): (res: (Outcome, nat))
    requires pos <= |data|
    ensures pos <= res.1 <= |data|
    ensures !r.TocEntryFor? ==> res.1 == pos
  {
    match r
    case TocEntryFor(filename) => (TocRewrite(filename, prevLine, line), TocPos(filename, data, tail, pos, line))
    case ParensUnescaper => (Ok(UnescapedParens(line)), pos)
    case PageRefUnescaper => (Ok(UnescapedPageRefs(line)), pos)
    case LinkUnescaper(keepLinks, wikiRepo) => (UnescapedLinks(keepLinks, wikiRepo, line), pos)
  }

  /** The replacer loop of `parse`: each replacer takes the line the one before
      it returned, "not responsible" included; a skip ends the loop, any other
      error ends the document, and otherwise the last line is the one written. */
  function Chain(rs: seq<Replacer>, data: string, tail: ReadError, pos: nat, prevLine: string, line: string): (res: (Outcome, nat))
    requires pos <= |data|
    ensures pos <= res.1 <= |data|
    ensures res.0.Ok? || res.0.Skip? || res.0.Fail?
    decreases |rs|
  {
    if rs == [] then (Ok(line), pos)
    else
      var s := Step(rs[0], data, tail, pos, prevLine, line);
      match s.0
      case Ok(l) => Chain(rs[1..], data, tail, s.1, prevLine, l)
      case NotResponsible(l) => Chain(rs[1..], data, tail, s.1, prevLine, l)
      case Skip => (Skip, s.1)
      case Fail => (Fail, s.1)
  }

  /** A replacer of `parse`, on the parser `p`. */
  method ApplyReplacer(r: Replacer, p: Parser, line: string) returns (o: Outcome)
    requires p.Valid()
    modifies p`pos
    ensures p.Valid()
    ensures (o, p.pos) == Step(r, p.data, p.tail, old(p.pos), p.prevLine, line)
  {
    match r
    case TocEntryFor(filename) =>
      o := TocEntry(filename, p, line);
    case ParensUnescaper =>
      o := UnescapeParens(line);
    case PageRefUnescaper =>
      o := UnescapePageRefs(line);
    case LinkUnescaper(keepLinks, wikiRepo) =>
      o := UnescapeLinks(keepLinks, wikiRepo, line);
  }

  /** The replacer loop of `parse` over `rs`. */
  method RunReplacers(rs: seq<Replacer>, p: Parser, line: string) returns (o: Outcome)
    requires p.Valid()
    modifies p`pos
    ensures p.Valid()
    ensures (o, p.pos) == Chain(rs, p.data, p.tail, old(p.pos), p.prevLine, line)
  {
    var cur := line;
    var k := 0;
    while k < |rs|
      invariant p.Valid() && 0 <= k <= |rs|
      invariant Chain(rs[k..], p.data, p.tail, p.pos, p.prevLine, cur) ==
        Chain(rs, p.data, p.tail, old(p.pos), p.prevLine, line)
    {
      assert rs[k..][1..] == rs[k + 1..];
      var res := ApplyReplacer(rs[k], p, cur);
      if res.Skip? || res.Fail? {
        return res;
      }
      cur := res.line;
      k := k + 1;
    }
    return Ok(cur);
  }

  // ---------------------------------------------------------------------------
  // The document

  /** The bytes written for a line: the line and "\n", with a blank line first
      when both it and the line written before it start with '>'. */
  function Emit(prevLine: string, line: string): string {
    (if |line| > 0 && line[0] == '>' && |prevLine| > 0 && prevLine[0] == '>' then "\n" else "") + line + "\n"
  }

  /** A line reader: given where the stream stands, what `parser.readLine`
      returns and where the stream stands after it. */
  type Reader = nat -> (ReadResult, nat)

  /** A reader over a stream of `n` bytes: it never moves back nor past the end,
      and it moves on whenever it gives a line. */
  ghost predicate ReaderOn(read: Reader, n: nat) {
    forall pos: nat :: pos <= n ==> pos <= read(pos).1 <= n && (read(pos).0.Line? ==> pos < read(pos).1)
  }

  /** `read` is `parser.readLine` over the document `data` ended by `tail`. */
  ghost predicate ReadsFrom(read: Reader, data: string, tail: ReadError) {
    ReaderOn(read, |data|) &&
    forall pos: nat {:trigger NextLine(data, pos, DefaultBufSize, tail)} :: pos <= |data| ==>
      read(pos) == NextLine(data, pos, DefaultBufSize, tail)
  }

  /** `parser.readLine` over the document `data` ended by `tail`, as a reader. */
  function Reads(data: string, tail: ReadError): (read: Reader)
    ensures ReadsFrom(read, data, tail)
  {
    (pos: nat) => if pos <= |data| then NextLine(data, pos, DefaultBufSize, tail) else (Error(tail), pos)
  }

  /** The rest of a fence after its opening line: each line read and written
      with "\n", up to and including the closing "```" line; where the reader
      stands then; and whether the closing line was found. */
  function FenceLines(read: Reader, n: nat, pos: nat): (res: (string, nat, bool))
    requires pos <= n && ReaderOn(read, n)
    ensures pos <= res.1 <= n
    decreases n - pos
  {
    var r := read(pos);
    if r.0.Error? then ([], r.1, false)
    else if r.0.line == CodeSnippet then (r.0.line + "\n", r.1, true)
    else
      var rest := FenceLines(read, n, r.1);
      (r.0.line + "\n" + rest.0, rest.1, rest.2)
  }

  /** The replacer loop as one step: given where the reader stands, the line last
      written and a line, the outcome and where the reader stands after it. */
  type LineStep = (nat, string, string) -> (Outcome, nat)

  /** A step that never moves the reader back, nor past the end of a stream of
      `n` bytes. */
  ghost predicate Advances(step: LineStep, n: nat) {
    forall pos: nat, prevLine: string, line: string :: pos <= n ==> pos <= step(pos, prevLine, line).1 <= n
  }

  /** `step` is the replacer loop over `rs`. */
  ghost predicate StepsFrom(step: LineStep, rs: seq<Replacer>, data: string, tail: ReadError) {
    Advances(step, |data|) &&
    forall pos: nat, prevLine: string, line: string {:trigger Chain(rs, data, tail, pos, prevLine, line)} :: pos <= |data| ==>
      step(pos, prevLine, line) == Chain(rs, data, tail, pos, prevLine, line)
  }

  /** The replacer loop over `rs`, as a step. */
  function Steps(rs: seq<Replacer>, data: string, tail: ReadError): (step: LineStep)
    ensures StepsFrom(step, rs, data, tail)
  {
    (pos: nat, prevLine: string, line: string) =>
      if pos <= |data| then Chain(rs, data, tail, pos, prevLine, line) else (Ok(line), pos)
  }

  /** One turn of the read loop of `parse`: the bytes written, where the reader
      stands after it and the line last written then; or the end of the loop,
      without error when the document is exhausted, with one when a replacer
      failed. */
  datatype Turn = Turn(out: string, pos: nat, prevLine: string) | Stop(ok: bool)

  /** The turn of the read loop with the reader at `pos`: a fence is copied
      whole, any other line goes through `step` and is written unless skipped. */
  ghost function NextTurn(step: LineStep, read: Reader, n: nat, pos: nat, prevLine: string): (t: Turn)
    requires pos <= n && ReaderOn(read, n) && Advances(step, n)
    ensures t.Turn? ==> pos < t.pos <= n
  {
    var r := read(pos);
    if r.0.Error? then Stop(true)
    else if StartsWith(r.0.line, CodeSnippet) then
      var f := FenceLines(read, n, r.1);
      Turn(r.0.line + "\n" + f.0, f.1, if f.2 then [] else prevLine)
    else
      var c := step(r.1, prevLine, r.0.line);
      if c.0.Skip? then Turn([], c.1, prevLine)
      else if c.0.Fail? then Stop(false)
      else Turn(Emit(prevLine, c.0.line), c.1, c.0.line)
  }

  /** The bytes `parse` writes, and whether it ends without error. */
  datatype Rendered = Rendered(out: string, ok: bool)

  /** What `parse` writes, with the replacer loop `step` and the reader `read`
      over a document of `n` bytes, from `pos` on, the line last written being
      `prevLine`. */
  ghost function Render(step: LineStep, read: Reader, n: nat, pos: nat, prevLine: string): Rendered
    requires pos <= n && ReaderOn(read, n) && Advances(step, n)
    decreases n - pos
  {
    match NextTurn(step, read, n, pos, prevLine)
    case Stop(ok) => Rendered([], ok)
    case Turn(out, q, prev) =>
      var rest := Render(step, read, n, q, prev);
      Rendered(out + rest.out, rest.ok)
  }

  /** What `parse` writes for a whole document of the book file `filename`. */
  ghost function Document(filename: string, cfg: Config, data: string, tail: ReadError): Rendered {
    Render(Steps(Replacers(filename, cfg), data, tail), Reads(data, tail), |data|, 0, [])
  }

  /** `parse(filename, src, dest)`: the parser `p` reads the document, `w` gets
      what is written; false when a replacer failed. */
  method Parse(filename: string, cfg: Config, p: Parser, w: Writer) returns (ok: bool)
    requires p.Valid()
    modifies p`pos, p`prevLine, w
    ensures p.Valid()
    ensures var step, read := Steps(Replacers(filename, cfg), p.data, p.tail), Reads(p.data, p.tail);
      w.written == old(w.written) + Render(step, read, |p.data|, old(p.pos), old(p.prevLine)).out &&
      ok == Render(step, read, |p.data|, old(p.pos), old(p.prevLine)).ok
  {
    var rs := Replacers(filename, cfg);
    ok := ParseWith(rs, p, w, Steps(rs, p.data, p.tail), Reads(p.data, p.tail));
  }

  /** The read loop of `parse`, with the replacers `rs`: `step` and `read` stand
      for the replacer loop and `parser.readLine`. */
  method ParseWith(rs: seq<Replacer>, p: Parser, w: Writer, ghost step: LineStep, ghost read: Reader) returns (ok: bool)
    requires p.Valid() && StepsFrom(step, rs, p.data, p.tail) && ReadsFrom(read, p.data, p.tail)
    modifies p`pos, p`prevLine, w
    ensures p.Valid()
    ensures w.written == old(w.written) + Render(step, read, |p.data|, old(p.pos), old(p.prevLine)).out
    ensures ok == Render(step, read, |p.data|, old(p.pos), old(p.prevLine)).ok
  {
    ghost var n := |p.data|;
    ghost var total := Render(step, read, n, p.pos, p.prevLine);
    while true
      invariant p.Valid()
      invariant w.written + Render(step, read, n, p.pos, p.prevLine).out == old(w.written) + total.out
      invariant Render(step, read, n, p.pos, p.prevLine).ok == total.ok
      decreases |p.data| - p.pos
    {
      ghost var t := NextTurn(step, read, n, p.pos, p.prevLine);
      ghost var written0 := w.written;
      var r := p.ReadLine();
      if r.Error? {
        assert written0 + [] == written0;
        return true;
      }
      var line := r.line;
      if StartsWith(line, CodeSnippet) {
        CopyFence(p, w, line, read);
      } else {
        var o := RunReplacers(rs, p, line);
        if o.Fail? {
          return false;
        }
        if o.Skip? {
          assert written0 + [] == written0;
        } else {
          WriteLine(p, w, o.line);
        }
      }
      assert t == Turn(w.written[|written0|..], p.pos, p.prevLine);
      Associative(written0, t.out, Render(step, read, n, p.pos, p.prevLine).out);
    }
  }

  /** A fence opened by `line`: the line and every line after it up to and
      including the closing one, each written with "\n"; the line last written
      is forgotten at the closing line. */
  method CopyFence(p: Parser, w: Writer, line: string, ghost read: Reader)
    requires p.Valid() && ReadsFrom(read, p.data, p.tail)
    modifies p`pos, p`prevLine, w
    ensures p.Valid()
    ensures var f := FenceLines(read, |p.data|, old(p.pos));
      w.written == old(w.written) + (line + "\n" + f.0) && p.pos == f.1 &&
      p.prevLine == if f.2 then [] else old(p.prevLine)
  {
    w.Write(line + "\n");
    ghost var n := |p.data|;
    ghost var fence := FenceLines(read, n, p.pos);
    ghost var base := w.written;
    var more := true;
    while more
      invariant p.Valid()
      invariant more ==> p.prevLine == old(p.prevLine)
      invariant more ==> w.written + FenceLines(read, n, p.pos).0 == base + fence.0
      invariant more ==> FenceLines(read, n, p.pos).1 == fence.1 && FenceLines(read, n, p.pos).2 == fence.2
      invariant !more ==> w.written == base + fence.0 && p.pos == fence.1
      invariant !more ==> p.prevLine == if fence.2 then [] else old(p.prevLine)
      decreases |p.data| - p.pos, more
    {
      more := CopyFenceLine(p, w, read);
    }
  }

  /** One line of a fence: read, and written with "\n" unless the document has
      ended; `more` is false at the end of the document and at the closing line. */
  method CopyFenceLine(p: Parser, w: Writer, ghost read: Reader) returns (more: bool)
    requires p.Valid() && ReadsFrom(read, p.data, p.tail)
    modifies p`pos, p`prevLine, w
    ensures p.Valid()
    ensures var n := |p.data|;
      var f, g := FenceLines(read, n, old(p.pos)), FenceLines(read, n, p.pos);
      more ==> (old(p.pos) < p.pos && p.prevLine == old(p.prevLine) &&
        old(w.written) + f.0 == w.written + g.0 && f.1 == g.1 && f.2 == g.2)
    ensures var f := FenceLines(read, |p.data|, old(p.pos));
      !more ==> (w.written == old(w.written) + f.0 && p.pos == f.1 && p.prevLine == if f.2 then [] else old(p.prevLine))
  {
    var r := p.ReadLine();
    if r.Error? {
      assert old(w.written) + [] == old(w.written);
      return false;
    }
    w.Write(r.line + "\n");
    if r.line == CodeSnippet {
      p.prevLine := [];
      assert w.written + [] == w.written;
      return false;
    }
    Associative(old(w.written), r.line + "\n", FenceLines(read, |p.data|, p.pos).0);
    return true;
  }

  /** A line that came through the replacers: written, and remembered as the line
      last written. */
  method WriteLine(p: Parser, w: Writer, line: string)
    modifies p`prevLine, w
    ensures w.written == old(w.written) + Emit(old(p.prevLine), line) && p.prevLine == line
  {
    if |line| > 0 {
      if line[0] == '>' && |p.prevLine| > 0 && p.prevLine[0] == '>' {
        w.Write("\n");
      }
      w.Write(line);
    }
    w.Write("\n");
    p.prevLine := line;
  }

  lemma Associative(a: string, b: string, c: string)
    ensures a + b + c == a + (b + c)
  {
  }
}
