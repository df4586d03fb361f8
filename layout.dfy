/** Where the pieces of a line built by concatenation lie, stated position by
    position, and the matches those positions give.  Every fact here is about one
    text; appending a text after it or putting one in front of it carries the fact
    over, so the lemmas about lines of a given shape never have to take apart a
    long concatenation. */
module Layout {
  import opened Text
  import opened Patterns

  /** `ch` does not occur in `s`. */
  predicate Lacks(s: string, ch: char) {
    forall i :: 0 <= i < |s| ==> s[i] != ch
  }

  /** `ch` does not occur in s[lo..hi]. */
  predicate Clear(s: string, lo: nat, hi: nat, ch: char) {
    lo <= hi <= |s| && forall q :: lo <= q < hi ==> s[q] != ch
  }

  lemma ClearRight(s: string, v: string, lo: nat, hi: nat, ch: char)
    requires Clear(s, lo, hi, ch)
    ensures Clear(s + v, lo, hi, ch)
  {
    forall q | lo <= q < hi
      ensures (s + v)[q] != ch
    {
      assert (s + v)[q] == s[q];
    }
  }

  lemma ClearLeft(u: string, s: string, lo: nat, hi: nat, ch: char)
    requires Clear(s, lo, hi, ch)
    ensures Clear(u + s, |u| + lo, |u| + hi, ch)
  {
    forall q | |u| + lo <= q < |u| + hi
      ensures (u + s)[q] != ch
    {
      assert (u + s)[q] == s[q - |u|];
    }
  }

  lemma OccursRight(s: string, v: string, p: string, i: nat)
    requires OccursAt(s, p, i)
    ensures OccursAt(s + v, p, i)
  {
    OccursAtSlice(s, p, i);
    OccursAtSlice(s + v, p, i);
    assert (s + v)[i..i + |p|] == s[i..i + |p|];
  }

  lemma OccursLeft(u: string, s: string, p: string, i: nat)
    requires OccursAt(s, p, i)
    ensures OccursAt(u + s, p, |u| + i)
  {
    OccursAtShift(u, s, p, i);
  }

  /** A text occurs at the start of itself followed by anything. */
  lemma OccursFront(p: string, v: string)
    ensures OccursAt(p + v, p, 0)
  {
    OccursAtSlice(p + v, p, 0);
    assert (p + v)[..|p|] == p;
  }

  // ---------------------------------------------------------------------------
  // `open` x `close`

  /** At `i`: `open` + `x` + `close`, with neither '\n' nor the first byte of
      `close` in `x`. */
  predicate Encloses(s: string, i: nat, open: string, x: string, close: string) {
    close != [] && OccursAt(s, open + x + close, i) && OccursAt(s, x, i + |open|) &&
    OccursAt(s, open, i) && OccursAt(s, close, i + |open| + |x|) &&
    Clear(s, i + |open|, i + |open| + |x|, '\n') && Clear(s, i + |open|, i + |open| + |x|, close[0])
  }

  lemma EnclosesRight(s: string, v: string, i: nat, open: string, x: string, close: string)
    requires Encloses(s, i, open, x, close)
    ensures Encloses(s + v, i, open, x, close)
  {
    OccursRight(s, v, open + x + close, i);
    OccursRight(s, v, x, i + |open|);
    OccursRight(s, v, open, i);
    OccursRight(s, v, close, i + |open| + |x|);
    ClearRight(s, v, i + |open|, i + |open| + |x|, '\n');
    ClearRight(s, v, i + |open|, i + |open| + |x|, close[0]);
  }

  lemma EnclosesLeft(u: string, s: string, i: nat, open: string, x: string, close: string)
    requires Encloses(s, i, open, x, close)
    ensures Encloses(u + s, |u| + i, open, x, close)
  {
    OccursLeft(u, s, open + x + close, i);
    OccursLeft(u, s, x, i + |open|);
    OccursLeft(u, s, open, i);
    OccursLeft(u, s, close, i + |open| + |x|);
    ClearLeft(u, s, i + |open|, i + |open| + |x|, '\n');
    ClearLeft(u, s, i + |open|, i + |open| + |x|, close[0]);
  }

  lemma EnclosesBase(open: string, x: string, close: string)
    requires close != [] && NoNewline(x) && Lacks(x, close[0])
    ensures Encloses(open + x + close, 0, open, x, close)
  {
    var w := open + x + close;
    OccursFront(w, []);
    assert w + [] == w;
    OccursFront(open, x + close);
    assert open + (x + close) == w;
    OccursFront(x, close);
    OccursLeft(open, x + close, x, 0);
    OccursFront(close, []);
    assert close + [] == close;
    OccursLeft(open + x, close, close, 0);
    ClearLeft(open, x, 0, |x|, '\n');
    ClearLeft(open, x, 0, |x|, close[0]);
    ClearRight(open + x, close, |open|, |open| + |x|, '\n');
    ClearRight(open + x, close, |open|, |open| + |x|, close[0]);
  }

  /** The match of `open` + `x` + `close` at `i`. */
  function Framed(i: nat, open: string, x: string, close: string): Match {
    var e := i + |open| + |x| + |close|;
    Match(i, e, i + |open|, i + |open| + |x|, e, e)
  }

  /** Where `open` + `x` + `close` stands, the lazy group is exactly `x`. */
  lemma EnclosedMatch(s: string, i: nat, open: string, x: string, close: string)
    requires i <= |s| && Encloses(s, i, open, x, close)
    ensures DelimitedAt(s, i, open, close) == Some(Framed(i, open, x, close))
  {
    var j := i + |open| + |x|;
    NewlineFromPast(s, i + |open|, j);
    DelimitedAtSpec(s, i, open, close);
    assert Delimits(s, i, open, close, j);
  }

  /** ... the match covers that text, and its group is `x`. */
  lemma EnclosedTexts(s: string, i: nat, open: string, x: string, close: string)
    requires Encloses(s, i, open, x, close)
    ensures var m := Framed(i, open, x, close);
      Within(s, m) && Whole(s, m) == open + x + close && Group1(s, m) == x
  {
    OccursAtSlice(s, open + x + close, i);
    OccursAtSlice(s, x, i + |open|);
  }

  // ---------------------------------------------------------------------------
  // [t](u)

  /** The text of a link with title `t` and target `u`. */
  function LinkText(t: string, u: string): string {
    "[" + t + "](" + u + ")"
  }

  /** At `i`: '[' + `t` + "](" + `u` + ')', with neither '\n' nor ']' in `t` and
      a non-empty `u` without parentheses. */
  predicate LinkEncloses(s: string, i: nat, t: string, u: string) {
    var te, e := i + 1 + |t|, i + 3 + |t| + |u|;
    u != [] && e < |s| && s[i] == '[' && s[te] == ']' && s[te + 1] == '(' && s[e] == ')' &&
    OccursAt(s, LinkText(t, u), i) && OccursAt(s, t, i + 1) && OccursAt(s, u, te + 2) &&
    Clear(s, i + 1, te, '\n') && Clear(s, i + 1, te, ']') &&
    Clear(s, te + 2, e, '(') && Clear(s, te + 2, e, ')')
  }

  lemma LinkEnclosesRight(s: string, v: string, i: nat, t: string, u: string)
    requires LinkEncloses(s, i, t, u)
    ensures LinkEncloses(s + v, i, t, u)
  {
    var te, e := i + 1 + |t|, i + 3 + |t| + |u|;
    OccursRight(s, v, LinkText(t, u), i);
    OccursRight(s, v, t, i + 1);
    OccursRight(s, v, u, te + 2);
    ClearRight(s, v, i + 1, te, '\n');
    ClearRight(s, v, i + 1, te, ']');
    ClearRight(s, v, te + 2, e, '(');
    ClearRight(s, v, te + 2, e, ')');
  }

  lemma LinkEnclosesLeft(u0: string, s: string, i: nat, t: string, u: string)
    requires LinkEncloses(s, i, t, u)
    ensures LinkEncloses(u0 + s, |u0| + i, t, u)
  {
    var te, e := i + 1 + |t|, i + 3 + |t| + |u|;
    var s' := u0 + s;
    assert s'[|u0| + i] == s[i] && s'[|u0| + te] == s[te] && s'[|u0| + te + 1] == s[te + 1] && s'[|u0| + e] == s[e];
    OccursLeft(u0, s, LinkText(t, u), i);
    OccursLeft(u0, s, t, i + 1);
    OccursLeft(u0, s, u, te + 2);
    ClearLeft(u0, s, i + 1, te, '\n');
    ClearLeft(u0, s, i + 1, te, ']');
    ClearLeft(u0, s, te + 2, e, '(');
    ClearLeft(u0, s, te + 2, e, ')');
  }

  lemma LinkEnclosesBase(t: string, u: string)
    requires NoNewline(t) && Lacks(t, ']') && u != [] && Lacks(u, '(') && Lacks(u, ')')
    ensures LinkEncloses(LinkText(t, u), 0, t, u)
  {
    var w := LinkText(t, u);
    var te, e := 1 + |t|, 3 + |t| + |u|;
    assert w[0] == '[' && w[te] == ']' && w[te + 1] == '(' && w[e] == ')';
    OccursFront(w, []);
    assert w + [] == w;
    assert w[1..te] == t && w[te + 2..e] == u;
    OccursAtSlice(w, t, 1);
    OccursAtSlice(w, u, te + 2);
    forall q | 1 <= q < te
      ensures w[q] == t[q - 1]
    {
    }
    forall q | te + 2 <= q < e
      ensures w[q] == u[q - te - 2]
    {
    }
  }

  /** The match of '[' + `t` + "](" + `u` + ')' at `i`. */
  function LinkMatch(i: nat, t: string, u: string): Match {
    var e := i + 3 + |t| + |u|;
    Match(i, e + 1, i + 1, i + 1 + |t|, i + 3 + |t|, e)
  }

  /** Where '[' + `t` + "](" + `u` + ')' stands, that is the link that starts there. */
  lemma LinkEnclosedMatch(s: string, i: nat, t: string, u: string)
    requires i <= |s| && LinkEncloses(s, i, t, u)
    ensures MatchAt(Link, s, i) == Some(LinkMatch(i, t, u))
  {
    var te, e := i + 1 + |t|, i + 3 + |t| + |u|;
    LinkFromSkip(s, i, i + 1, te);
    ParenFromIs(s, te + 2, e);
  }

  /** ... its title is `t` and its target `u`. */
  lemma LinkEnclosedTexts(s: string, i: nat, t: string, u: string)
    requires i <= |s| && LinkEncloses(s, i, t, u)
    ensures var m := LinkMatch(i, t, u);
      Within(s, m) && Whole(s, m) == LinkText(t, u) && Group1(s, m) == t && Group2(s, m) == u
  {
    OccursAtSlice(s, LinkText(t, u), i);
    OccursAtSlice(s, t, i + 1);
    OccursAtSlice(s, u, i + 3 + |t|);
  }
}
