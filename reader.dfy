/** The line reader: `parser.readLine` and `parser.skipNextEmptyLine` over
    `bufio.Reader`.  The stream is the byte string `data` followed by the error
    `tail` that the underlying reader reports once every byte is delivered. */
module LineReader {
  import opened Text

  datatype ReadError = EOF | Failed

  datatype ReadResult = Line(line: string) | Error(err: ReadError)

  /** What one call of `bufio.Reader.ReadLine` returns: a fragment of a line
      (`isPrefix` when the line goes on beyond the buffer) and the stream
      position after it, or no bytes at all when the stream is exhausted. */
  datatype Fragment = Fragment(bytes: string, isPrefix: bool, next: nat) | NoBytes

  /** Buffer size of `bufio.NewReader`, and the least one `bufio` accepts. */
  const DefaultBufSize: nat := 4096
  const MinBufSize: nat := 16

  /** How many bytes the buffer holds when it is filled at `pos`. */
  function Window(data: string, pos: nat, size: nat): (w: nat)
    requires pos <= |data|
    ensures pos + w <= |data| && w <= size
    ensures w == size || pos + w == |data|
  {
    if |data| - pos < size then |data| - pos else size
  }

  /** `bufio.Reader.ReadLine` with a buffer of `size` bytes and the stream at `pos`:
      the bytes up to the first '\n' within the buffer (that '\n' and a '\r' before
      it dropped); a full buffer without '\n' as a prefix fragment, holding back a
      final '\r' that may start a "\r\n"; or the unterminated rest of the stream. */
  function NextFragment(data: string, pos: nat, size: nat): (f: Fragment)
    requires pos <= |data| && size >= MinBufSize
    ensures f.NoBytes? <==> pos == |data|
    ensures f.Fragment? ==> pos < f.next <= |data|
  {
    var w := Window(data, pos, size);
    match NewlineAt(data, pos, pos + w)
    case Some(k) =>
      Fragment(StripCR(data[pos..k]), false, k + 1)
    case None =>
      if w == size then
        if data[pos + size - 1] == '\r' then Fragment(data[pos..pos + size - 1], true, pos + size - 1)
        else Fragment(data[pos..pos + size], true, pos + size)
      else if w == 0 then NoBytes
      else Fragment(data[pos..], false, |data|)
  }

  /** Where the first '\n' among the bytes `data[lo..hi]` stands
      (`bytes.IndexByte` over the buffered bytes), counted from the start of `data`. */
  function NewlineAt(data: string, lo: nat, hi: nat): (r: Option<nat>)
    requires lo <= hi <= |data|
    ensures r.Some? ==> lo <= r.value < hi && data[r.value] == '\n'
    decreases hi - lo
  {
    if lo == hi then None
    else if data[lo] == '\n' then Some(lo)
    else NewlineAt(data, lo + 1, hi)
  }

  /** No '\n' comes before the one `NewlineAt` finds, and there is none at all
      when it finds nothing. */
  lemma {:induction false} NewlineAtFirst(data: string, lo: nat, hi: nat)
    requires lo <= hi <= |data|
    ensures NewlineAt(data, lo, hi).Some? ==> NoNewline(data[lo..NewlineAt(data, lo, hi).value])
    ensures NewlineAt(data, lo, hi).None? ==> NoNewline(data[lo..hi])
    decreases hi - lo
  {
    if lo < hi && data[lo] != '\n' {
      NewlineAtFirst(data, lo + 1, hi);
      var e := match NewlineAt(data, lo, hi) case Some(k) => k case None => hi;
      forall i | 0 <= i < e - lo
        ensures data[lo..e][i] != '\n'
      {
        if i > 0 {
          assert data[lo..e][i] == data[lo + 1..e][i - 1];
        }
      }
    }
  }

  /** A '\n' at `k` with none before it in `data[lo..k]` is the one `NewlineAt` finds. */
  lemma {:induction false} NewlineAtIs(data: string, lo: nat, hi: nat, k: nat)
    requires lo <= k < hi <= |data| && data[k] == '\n' && NoNewline(data[lo..k])
    ensures NewlineAt(data, lo, hi) == Some(k)
    decreases k - lo
  {
    if lo < k {
      assert data[lo] == data[lo..k][0];
      NoNewlineWithin(data, lo, k, lo + 1, k);
      NewlineAtIs(data, lo + 1, hi, k);
    }
  }

  /** A fragment never holds a '\n'. */
  lemma FragmentHasNoNewline(data: string, pos: nat, size: nat)
    requires pos <= |data| && size >= MinBufSize
    ensures var f := NextFragment(data, pos, size);
      f.Fragment? ==> NoNewline(f.bytes)
  {
    var w := Window(data, pos, size);
    NewlineAtFirst(data, pos, pos + w);
    match NewlineAt(data, pos, pos + w)
    case Some(k) =>
      StripCRNoNewline(data[pos..k]);
    case None =>
      if w == size {
        NoNewlineWithin(data, pos, pos + w, pos, pos + size - 1);
      } else {
        SliceToEnd(data, pos);
      }
  }

  /** A prefix fragment is a full buffer without '\n', less a final '\r'. */
  lemma PrefixShape(data: string, pos: nat, size: nat)
    requires pos <= |data| && size >= MinBufSize
    ensures var f := NextFragment(data, pos, size);
      f.Fragment? && f.isPrefix ==> f.bytes == data[pos..f.next] && size - 1 <= |f.bytes| <= size
  {
  }

  /** Any other fragment is a line ended by '\n' within the buffer (the '\n' and a
      '\r' before it dropped), or the unterminated rest of a stream shorter than
      the buffer. */
  lemma LineShape(data: string, pos: nat, size: nat)
    requires pos <= |data| && size >= MinBufSize
    ensures var f := NextFragment(data, pos, size);
      f.Fragment? && !f.isPrefix ==>
        (data[f.next - 1] == '\n' && NoNewline(data[pos..f.next - 1]) && f.bytes == StripCR(data[pos..f.next - 1])) ||
        (f.next == |data| && |data| - pos < size && NoNewline(data[pos..]) && f.bytes == data[pos..])
  {
    var w := Window(data, pos, size);
    NewlineAtFirst(data, pos, pos + w);
    if NewlineAt(data, pos, pos + w).None? && w < size {
      SliceToEnd(data, pos);
    }
  }

  /** A line prefix put in front of the line a later read returns; errors pass through. */
  function Glue(prefix: string, r: (ReadResult, nat)): (ReadResult, nat) {
    (if r.0.Line? then Line(prefix + r.0.line) else r.0, r.1)
  }

  /** `parser.readLine`: the prefix fragments from `pos` on glued to the first
      fragment that is not a prefix, with the position after it; an exhausted
      stream reports `tail`, and a line cut short by it is dropped. */
  function NextLine(data: string, pos: nat, size: nat, tail: ReadError): (r: (ReadResult, nat))
    requires pos <= |data| && size >= MinBufSize
    ensures pos <= r.1 <= |data|
    ensures r.0.Line? ==> pos < r.1
    ensures r.0.Error? ==> r.0.err == tail && r.1 == |data|
    decreases |data| - pos
  {
    match NextFragment(data, pos, size)
    case NoBytes => (Error(tail), pos)
    case Fragment(bytes, isPrefix, next) =>
      if !isPrefix then (Line(bytes), next)
      else Glue(bytes, NextLine(data, next, size, tail))
  }

  /** `Peek(2)` succeeds and its second byte is '\n'. */
  predicate PeeksNewline(data: string, pos: nat) {
    pos + 2 <= |data| && data[pos + 1] == '\n'
  }

  /** The reading state of one document, and the line last written for it. */
  class Parser {
    const data: string
    const tail: ReadError
    var pos: nat
    var prevLine: string

    predicate Valid()
      reads this
    {
      pos <= |data|
    }

    constructor (data: string, tail: ReadError)
      ensures Valid()
      ensures this.data == data && this.tail == tail && pos == 0 && prevLine == []
    {
      this.data := data;
      this.tail := tail;
      pos := 0;
      prevLine := [];
    }

    /** `parser.readLine`. */
    method ReadLine() returns (r: ReadResult)
      requires Valid()
      modifies this`pos
      ensures Valid()
      ensures (r, pos) == NextLine(data, old(pos), DefaultBufSize, tail)
    {
      var linePrefix: string := [];
      GlueNothing(NextLine(data, pos, DefaultBufSize, tail));
      while true
        invariant Valid()
        invariant NextLine(data, old(pos), DefaultBufSize, tail) ==
          Glue(linePrefix, NextLine(data, pos, DefaultBufSize, tail))
        decreases |data| - pos
      {
        var f := NextFragment(data, pos, DefaultBufSize);
        if f.NoBytes? {
          return Error(tail);
        }
        pos := f.next;
        if !f.isPrefix {
          return Line(linePrefix + f.bytes);
        }
        GlueTwice(linePrefix, f.bytes, NextLine(data, pos, DefaultBufSize, tail));
        linePrefix := linePrefix + f.bytes;
      }
    }

    /** `parser.skipNextEmptyLine`: reads the next line away when the second
        byte ahead is '\n'. */
    method SkipNextEmptyLine() returns (skipped: bool)
      requires Valid()
      modifies this`pos
      ensures Valid()
      ensures skipped == PeeksNewline(data, old(pos))
      ensures pos == if skipped then NextLine(data, old(pos), DefaultBufSize, tail).1 else old(pos)
    {
      skipped := PeeksNewline(data, pos);
      if skipped {
        var _ := ReadLine();
      }
    }
  }

  lemma GlueNothing(r: (ReadResult, nat))
    ensures Glue([], r) == r
  {
    if r.0.Line? {
      assert [] + r.0.line == r.0.line;
    }
  }

  lemma GlueTwice(a: string, b: string, r: (ReadResult, nat))
    ensures Glue(a, Glue(b, r)) == Glue(a + b, r)
  {
    if r.0.Line? {
      assert a + (b + r.0.line) == (a + b) + r.0.line;
    }
  }

  // ---------------------------------------------------------------------------
  // What a read returns

  /** A line ended by '\n' comes back whole, without the '\n' and a '\r' before
      it, however many buffers it spans; the stream moves past the '\n'. */
  lemma {:induction false} LineUpToNewline(data: string, pos: nat, size: nat, tail: ReadError, k: nat)
    requires size >= MinBufSize && pos + k < |data|
    requires data[pos + k] == '\n' && NoNewline(data[pos..pos + k])
    ensures NextLine(data, pos, size, tail) == (Line(StripCR(data[pos..pos + k])), pos + k + 1)
    decreases k, 1
  {
    if k < size {
      NewlineFragment(data, pos, size, k);
      LastFragment(data, pos, size, tail, NextFragment(data, pos, size));
    } else {
      LineAcrossBuffers(data, pos, size, tail, k);
    }
  }

  /** ... when the line fills the buffer: a prefix fragment, then the rest of
      the line. */
  lemma {:induction false} LineAcrossBuffers(data: string, pos: nat, size: nat, tail: ReadError, k: nat)
    requires size >= MinBufSize && size <= k && pos + k < |data|
    requires data[pos + k] == '\n' && NoNewline(data[pos..pos + k])
    ensures NextLine(data, pos, size, tail) == (Line(StripCR(data[pos..pos + k])), pos + k + 1)
    decreases k, 0
  {
    NoNewlineWithin(data, pos, pos + k, pos, pos + size);
    var f := PrefixFragment(data, pos, size);
    var next := f.next;
    var end := pos + k;
    NoNewlineWithin(data, pos, end, next, end);
    var k2 := end - next;
    assert next + k2 == end;
    LineUpToNewline(data, next, size, tail, k2);
    var rest := NextLine(data, next, size, tail);
    assert rest == (Line(StripCR(data[next..end])), end + 1);
    PrefixThenRest(data, pos, size, tail, f);
    PrefixJoinsRest(data, pos, next, end);
    GlueLine(NextLine(data, pos, size, tail), rest, f.bytes, StripCR(data[next..end]), StripCR(data[pos..end]), end + 1);
  }

  /** A fragment that is not a prefix is the line itself. */
  lemma LastFragment(data: string, pos: nat, size: nat, tail: ReadError, f: Fragment)
    requires pos <= |data| && size >= MinBufSize
    requires f == NextFragment(data, pos, size) && f.Fragment? && !f.isPrefix
    ensures NextLine(data, pos, size, tail) == (Line(f.bytes), f.next)
  {
  }

  lemma GlueLine(x: (ReadResult, nat), y: (ReadResult, nat), prefix: string, line: string, whole: string, next: nat)
    requires x == Glue(prefix, y) && y == (Line(line), next) && prefix + line == whole
    ensures x == (Line(whole), next)
  {
  }

  /** The bytes of a prefix fragment and the rest of the line read after it make
      up the whole line; a '\r' held back by the fragment comes back with that
      rest. */
  lemma PrefixJoinsRest(data: string, pos: nat, next: nat, end: nat)
    requires pos <= next <= end <= |data|
    requires next == end ==> end == pos || data[end - 1] != '\r'
    ensures data[pos..next] + StripCR(data[next..end]) == StripCR(data[pos..end])
  {
    SliceSplit(data, pos, next, end);
    if next < end {
      StripCRAppend(data[pos..next], data[next..end]);
    } else {
      assert data[next..end] == [] && data[pos..next] + [] == data[pos..next];
      if end > pos {
        assert data[pos..end][end - pos - 1] == data[end - 1];
      }
    }
  }

  /** A prefix fragment is glued to the line read after it. */
  lemma PrefixThenRest(data: string, pos: nat, size: nat, tail: ReadError, f: Fragment)
    requires pos <= |data| && size >= MinBufSize
    requires f == NextFragment(data, pos, size) && f.Fragment? && f.isPrefix
    ensures NextLine(data, pos, size, tail) == Glue(f.bytes, NextLine(data, f.next, size, tail))
  {
  }

  /** A '\n' within the buffer ends the fragment. */
  lemma NewlineFragment(data: string, pos: nat, size: nat, k: nat)
    requires size >= MinBufSize && k < size && pos + k < |data|
    requires data[pos + k] == '\n' && NoNewline(data[pos..pos + k])
    ensures NextFragment(data, pos, size) == Fragment(StripCR(data[pos..pos + k]), false, pos + k + 1)
  {
    NewlineAtIs(data, pos, pos + Window(data, pos, size), pos + k);
  }

  /** A full buffer without '\n' is a prefix fragment, less a final '\r'. */
  lemma PrefixFragment(data: string, pos: nat, size: nat) returns (f: Fragment)
    requires size >= MinBufSize && pos + size <= |data| && NoNewline(data[pos..pos + size])
    ensures f == NextFragment(data, pos, size)
    ensures f.Fragment? && f.isPrefix && f.bytes == data[pos..f.next]
    ensures f.next == if data[pos + size - 1] == '\r' then pos + size - 1 else pos + size
  {
    assert NewlineAt(data, pos, pos + size).None? by {
      forall i | pos <= i < pos + size
        ensures data[i] != '\n'
      {
        assert data[i] == data[pos..pos + size][i - pos];
      }
    }
    f := NextFragment(data, pos, size);
  }

  /** Part of a stretch without '\n' has none either. */
  lemma NoNewlineWithin(data: string, a: nat, b: nat, i: nat, j: nat)
    requires a <= i <= j <= b <= |data| && NoNewline(data[a..b])
    ensures NoNewline(data[i..j])
  {
    forall t | 0 <= t < j - i
      ensures data[i..j][t] != '\n'
    {
      assert data[i..j][t] == data[a..b][i - a + t];
    }
  }

  /** An exhausted stream reports its error and stays put. */
  lemma EndOfStream(data: string, size: nat, tail: ReadError)
    requires size >= MinBufSize
    ensures NextLine(data, |data|, size, tail) == (Error(tail), |data|)
  {
  }

  /** A last line without '\n' comes back whole, '\r' included, or not at all. */
  lemma {:induction false} UnterminatedLineWholeOrLost(data: string, pos: nat, size: nat, tail: ReadError)
    requires size >= MinBufSize && pos < |data| && NoNewline(data[pos..])
    ensures NextLine(data, pos, size, tail).0 in {Line(data[pos..]), Error(tail)}
    decreases |data| - pos
  {
    var f := NextFragment(data, pos, size);
    PrefixShape(data, pos, size);
    LineShape(data, pos, size);
    if f.isPrefix {
      PrefixThenRest(data, pos, size, tail, f);
      if f.next < |data| {
        NoNewlineWithin(data, pos, |data|, f.next, |data|);
        UnterminatedLineWholeOrLost(data, f.next, size, tail);
        SliceSplit(data, pos, f.next, |data|);
        SliceToEnd(data, pos);
        SliceToEnd(data, f.next);
      } else {
        EndOfStream(data, size, tail);
      }
    } else {
      assert data[f.next - 1] != '\n' by {
        assert data[pos..][f.next - 1 - pos] == data[f.next - 1];
      }
    }
  }

  /** A last line without '\n' shorter than the buffer comes back whole. */
  lemma ShortUnterminatedLine(data: string, pos: nat, size: nat, tail: ReadError)
    requires size >= MinBufSize && pos < |data| && |data| - pos < size && NoNewline(data[pos..])
    ensures NextLine(data, pos, size, tail) == (Line(data[pos..]), |data|)
  {
    assert data[pos..pos + (|data| - pos)] == data[pos..];
  }

  /** A last line without '\n' exactly one buffer long, not ending in '\r', is lost:
      the full buffer is a prefix fragment and the read after it finds the stream
      exhausted. */
  lemma FullBufferLastLineLost(data: string, pos: nat, size: nat, tail: ReadError)
    requires size >= MinBufSize && |data| - pos == size && NoNewline(data[pos..])
    requires data[|data| - 1] != '\r'
    ensures NextLine(data, pos, size, tail) == (Error(tail), |data|)
  {
    assert data[pos..pos + size] == data[pos..];
  }

  /** The line `skipNextEmptyLine` reads away: the blank line at `pos` when the
      byte there is '\n', otherwise the one-byte line at `pos` (a blank "\r\n" line,
      or any other one-character line). */
  lemma SkippedLine(data: string, pos: nat, size: nat, tail: ReadError)
    requires size >= MinBufSize && PeeksNewline(data, pos)
    ensures data[pos] == '\n' ==> NextLine(data, pos, size, tail) == (Line([]), pos + 1)
    ensures data[pos] != '\n' ==> NextLine(data, pos, size, tail) == (Line(StripCR([data[pos]])), pos + 2)
  {
    if data[pos] == '\n' {
      LineUpToNewline(data, pos, size, tail, 0);
    } else {
      assert data[pos..pos + 1] == [data[pos]];
      LineUpToNewline(data, pos, size, tail, 1);
    }
  }
}
