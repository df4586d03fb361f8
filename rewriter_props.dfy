/** What the line replacers do to lines of a known shape. */
module RewriterProperties {
  import opened Text
  import opened Paths
  import opened Patterns
  import opened Layout
  import opened Rewriters

  lemma LacksConcat(u: string, v: string, c: char)
    requires Lacks(u, c) && Lacks(v, c)
    ensures Lacks(u + v, c)
  {
    var w := u + v;
    forall i | 0 <= i < |w|
      ensures w[i] != c
    {
      if i >= |u| {
        assert w[i] == v[i - |u|];
      }
    }
  }

  // ---------------------------------------------------------------------------
  // Locating the matches

  /** From `m.start` on, a match with no lead byte of `p` after it is the only one. */
  lemma LastMatch(p: Pattern, s: string, m: Match)
    requires m.start <= |s| && MatchAt(p, s, m.start) == Some(m)
    requires Clear(s, m.end, |s|, Lead(p))
    ensures FindAll(p, s, m.start) == [m]
  {
    FindAllCons(p, s, m.start, m);
    NoLeadNoMatch(p, s, m.end, |s|);
    FindAllEmpty(p, s, m.end);
  }

  /** A match with no lead byte of `p` before it or after it is the only one. */
  lemma OnlyMatch(p: Pattern, s: string, m: Match)
    requires m.start <= |s| && MatchAt(p, s, m.start) == Some(m)
    requires Clear(s, 0, m.start, Lead(p)) && Clear(s, m.end, |s|, Lead(p))
    ensures FindAll(p, s, 0) == [m]
  {
    NoLeadNoMatch(p, s, 0, m.start);
    FindAllSkip(p, s, 0, m.start);
    LastMatch(p, s, m);
  }

  /** Two matches with no lead byte of `p` before, between or after them are the only ones. */
  lemma TwoMatches(p: Pattern, s: string, m1: Match, m2: Match)
    requires m1.start <= |s| && MatchAt(p, s, m1.start) == Some(m1)
    requires m1.end <= m2.start <= |s| && MatchAt(p, s, m2.start) == Some(m2)
    requires Clear(s, 0, m1.start, Lead(p)) && Clear(s, m1.end, m2.start, Lead(p))
    requires Clear(s, m2.end, |s|, Lead(p))
    ensures FindAll(p, s, 0) == [m1, m2]
  {
    NoLeadNoMatch(p, s, 0, m1.start);
    FindAllSkip(p, s, 0, m1.start);
    FindAllCons(p, s, m1.start, m1);
    NoLeadNoMatch(p, s, m1.end, m2.start);
    FindAllSkip(p, s, m1.end, m2.start);
    LastMatch(p, s, m2);
  }

  // ---------------------------------------------------------------------------
  // `open` (.*?) `close` around known groups

  /** `open` + `x` + `close` between two texts without the lead byte: one match,
      whose group is `x`. */
  lemma OneDelimited(p: Pattern, a: string, x: string, b: string)
    requires p.Delimited? && p.close != []
    requires Lacks(a, Lead(p)) && Lacks(b, Lead(p)) && NoNewline(x) && Lacks(x, p.close[0])
    ensures var s := a + (p.open + x + p.close) + b;
      FindAll(p, s, 0) == [Framed(|a|, p.open, x, p.close)] && Encloses(s, |a|, p.open, x, p.close)
  {
    var w := p.open + x + p.close;
    var s := a + w + b;
    var L := Lead(p);
    EnclosesBase(p.open, x, p.close);
    EnclosesLeft(a, w, 0, p.open, x, p.close);
    EnclosesRight(a + w, b, |a|, p.open, x, p.close);
    ClearRight(a, w, 0, |a|, L);
    ClearRight(a + w, b, 0, |a|, L);
    ClearLeft(a + w, b, 0, |b|, L);
    EnclosedMatch(s, |a|, p.open, x, p.close);
    OnlyMatch(p, s, Framed(|a|, p.open, x, p.close));
  }

  /** Where the two groups of `a` + `w1` + `c` + `w2` + `b` stand. */
  lemma TwoEncloses(a: string, open: string, x: string, c: string, y: string, close: string, b: string)
    requires close != [] && NoNewline(x) && Lacks(x, close[0]) && NoNewline(y) && Lacks(y, close[0])
    ensures var w1, w2 := open + x + close, open + y + close;
      var s := a + w1 + c + w2 + b;
      Encloses(s, |a|, open, x, close) && Encloses(s, |a| + |w1| + |c|, open, y, close)
  {
    var w1 := open + x + close;
    FirstGroupIn(a, open, x, close, c, open + y + close, b);
    SecondGroupIn(a + w1 + c, open, y, close, b);
  }

  /** Two groups framed at `i1` and `i2`, with no lead byte outside them: the two matches. */
  lemma TwoFramed(p: Pattern, s: string, i1: nat, x: string, i2: nat, y: string)
    requires p.Delimited? && i2 <= |s|
    requires Encloses(s, i1, p.open, x, p.close) && Encloses(s, i2, p.open, y, p.close)
    requires Clear(s, 0, i1, Lead(p)) && Clear(s, Framed(i1, p.open, x, p.close).end, i2, Lead(p))
    requires Clear(s, Framed(i2, p.open, y, p.close).end, |s|, Lead(p))
    ensures FindAll(p, s, 0) == [Framed(i1, p.open, x, p.close), Framed(i2, p.open, y, p.close)]
  {
    EnclosedMatch(s, i1, p.open, x, p.close);
    EnclosedMatch(s, i2, p.open, y, p.close);
    TwoMatches(p, s, Framed(i1, p.open, x, p.close), Framed(i2, p.open, y, p.close));
  }

  /** Two such groups with a text without the lead byte between them: two matches. */
  lemma TwoDelimited(p: Pattern, a: string, x: string, c: string, y: string, b: string)
    requires p.Delimited? && p.close != []
    requires Lacks(a, Lead(p)) && Lacks(c, Lead(p)) && Lacks(b, Lead(p))
    requires NoNewline(x) && Lacks(x, p.close[0]) && NoNewline(y) && Lacks(y, p.close[0])
    ensures var w1, w2 := p.open + x + p.close, p.open + y + p.close;
      var s := a + w1 + c + w2 + b;
      FindAll(p, s, 0) == [Framed(|a|, p.open, x, p.close), Framed(|a| + |w1| + |c|, p.open, y, p.close)]
  {
    var w1, w2 := p.open + x + p.close, p.open + y + p.close;
    TwoEncloses(a, p.open, x, c, y, p.close, b);
    LeadFreeAround(a, w1, c, w2, b, Lead(p));
    TwoFramed(p, a + w1 + c + w2 + b, |a|, x, |a| + |w1| + |c|, y);
  }

  lemma FirstGroupIn(a: string, open: string, x: string, close: string, c: string, w2: string, b: string)
    requires close != [] && NoNewline(x) && Lacks(x, close[0])
    ensures Encloses(a + (open + x + close) + c + w2 + b, |a|, open, x, close)
  {
    var w1 := open + x + close;
    EnclosesBase(open, x, close);
    EnclosesLeft(a, w1, 0, open, x, close);
    EnclosesRight(a + w1, c, |a|, open, x, close);
    EnclosesRight(a + w1 + c, w2, |a|, open, x, close);
    EnclosesRight(a + w1 + c + w2, b, |a|, open, x, close);
  }

  lemma SecondGroupIn(front: string, open: string, y: string, close: string, b: string)
    requires close != [] && NoNewline(y) && Lacks(y, close[0])
    ensures Encloses(front + (open + y + close) + b, |front|, open, y, close)
  {
    var w2 := open + y + close;
    EnclosesBase(open, y, close);
    EnclosesLeft(front, w2, 0, open, y, close);
    EnclosesRight(front + w2, b, |front|, open, y, close);
  }

  /** In `a + w1 + c + w2 + b`, `ch` is not in the stretches of `a`, `c` and `b`. */
  lemma LeadFreeAround(a: string, w1: string, c: string, w2: string, b: string, ch: char)
    requires Lacks(a, ch) && Lacks(c, ch) && Lacks(b, ch)
    ensures var s := a + w1 + c + w2 + b; var e1, i2 := |a| + |w1|, |a| + |w1| + |c|;
      Clear(s, 0, |a|, ch) && Clear(s, e1, i2, ch) && Clear(s, i2 + |w2|, |s|, ch)
  {
    ClearRight(a, w1, 0, |a|, ch);
    ClearRight(a + w1, c, 0, |a|, ch);
    ClearRight(a + w1 + c, w2, 0, |a|, ch);
    ClearRight(a + w1 + c + w2, b, 0, |a|, ch);
    ClearLeft(a + w1, c, 0, |c|, ch);
    ClearRight(a + w1 + c, w2, |a + w1|, |a + w1| + |c|, ch);
    ClearRight(a + w1 + c + w2, b, |a + w1|, |a + w1| + |c|, ch);
    ClearLeft(a + w1 + c + w2, b, 0, |b|, ch);
  }

  /** Replacing the edits of a single match. */
  lemma ReplaceOne(a: string, w: string, b: string, repl: string)
    requires w != [] && Lacks(a, w[0])
    ensures ReplaceEach(a + w + b, [(w, repl)]) == a + repl + b
  {
    ReplaceFirstAfter(a, w, b, repl);
    assert [(w, repl)][1..] == [];
  }

  /** Replacing the edits of two matches, the second after a text free of its lead byte. */
  lemma ReplaceTwo(a: string, w1: string, r1: string, c: string, w2: string, r2: string, b: string)
    requires w1 != [] && w2 != [] && Lacks(a, w1[0]) && Lacks(a + r1 + c, w2[0])
    ensures ReplaceEach(a + w1 + c + w2 + b, [(w1, r1), (w2, r2)]) == a + r1 + c + r2 + b
  {
    assert a + w1 + c + w2 + b == a + w1 + (c + w2 + b);
    ReplaceFirstAfter(a, w1, c + w2 + b, r1);
    assert a + r1 + (c + w2 + b) == (a + r1 + c) + w2 + b;
    ReplaceEachSplit(a + w1 + c + w2 + b, (w1, r1), [(w2, r2)]);
    assert [(w1, r1), (w2, r2)] == [(w1, r1)] + [(w2, r2)];
    ReplaceOne(a + r1 + c, w2, b, r2);
  }

  // ---------------------------------------------------------------------------
  // unescapeParens

  /** A line without a backslash is left as it is. */
  lemma NoBackslashUnchanged(s: string)
    requires Lacks(s, '\\')
    ensures UnescapedParens(s) == s
  {
    NoLeadNoMatch(EscapedParens, s, 0, |s|);
    FindAllEmpty(EscapedParens, s, 0);
  }

  /** One `\(x\)` becomes `(x)`. */
  lemma OneEscapedGroup(a: string, x: string, b: string)
    requires Lacks(a, '\\') && Lacks(x, '\\') && Lacks(b, '\\') && NoNewline(x)
    ensures UnescapedParens(a + (ParenOpen + x + ParenClose) + b) == a + ("(" + x + ")") + b
  {
    var w := ParenOpen + x + ParenClose;
    var s := a + w + b;
    var m := Framed(|a|, ParenOpen, x, ParenClose);
    OneDelimited(EscapedParens, a, x, b);
    EnclosedTexts(s, |a|, ParenOpen, x, ParenClose);
    assert WrapEdits(s, [m], "(", ")") == [(w, Wrap(x, "(", ")"))];
    ReplaceOne(a, w, b, Wrap(x, "(", ")"));
  }

  /** The wrap edits of two matches, one after the other. */
  lemma WrapEditsPair(s: string, m1: Match, m2: Match, start: string, end: string)
    requires Within(s, m1) && Within(s, m2)
    ensures WrapEdits(s, [m1, m2], start, end) ==
      [(Whole(s, m1), Wrap(Group1(s, m1), start, end)), (Whole(s, m2), Wrap(Group1(s, m2), start, end))]
  {
  }

  /** The wrap edits of two framed groups: each group's text and its wrapped group. */
  lemma TwoWrapEdits(s: string, i1: nat, x: string, i2: nat, y: string, open: string, close: string, start: string, end: string)
    requires Encloses(s, i1, open, x, close) && Encloses(s, i2, open, y, close)
    ensures WrapEdits(s, [Framed(i1, open, x, close), Framed(i2, open, y, close)], start, end) ==
      [(open + x + close, Wrap(x, start, end)), (open + y + close, Wrap(y, start, end))]
  {
    EnclosedTexts(s, i1, open, x, close);
    EnclosedTexts(s, i2, open, y, close);
    WrapEditsPair(s, Framed(i1, open, x, close), Framed(i2, open, y, close), start, end);
  }

  /** Where the only matches are two framed groups, the edits are their texts and
      their wrapped groups. */
  lemma TwoWrappedAt(p: Pattern, s: string, i1: nat, x: string, i2: nat, y: string, start: string, end: string)
    requires p.Delimited?
    requires Encloses(s, i1, p.open, x, p.close) && Encloses(s, i2, p.open, y, p.close)
    requires FindAll(p, s, 0) == [Framed(i1, p.open, x, p.close), Framed(i2, p.open, y, p.close)]
    ensures ReplaceEach(s, WrapEdits(s, FindAll(p, s, 0), start, end)) ==
      ReplaceEach(s, [(p.open + x + p.close, Wrap(x, start, end)), (p.open + y + p.close, Wrap(y, start, end))])
  {
    TwoWrapEdits(s, i1, x, i2, y, p.open, p.close, start, end);
  }

  /** Replacing both groups by their wrapped texts, when no lead byte precedes
      the second group in the text so far. */
  lemma ReplaceTwoWrapped(p: Pattern, a: string, x: string, c: string, y: string, b: string, start: string, end: string)
    requires p.Delimited?
    requires Lacks(a, Lead(p)) && Lacks(x, Lead(p)) && Lacks(c, Lead(p))
    requires Lacks(start, Lead(p)) && Lacks(end, Lead(p))
    ensures var w1, w2 := p.open + x + p.close, p.open + y + p.close;
      ReplaceEach(a + w1 + c + w2 + b, [(w1, Wrap(x, start, end)), (w2, Wrap(y, start, end))]) ==
        a + Wrap(x, start, end) + c + Wrap(y, start, end) + b
  {
    var r1 := Wrap(x, start, end);
    LacksConcat(start, x, Lead(p));
    LacksConcat(start + x, end, Lead(p));
    LacksConcat(a, r1, Lead(p));
    LacksConcat(a + r1, c, Lead(p));
    ReplaceTwo(a, p.open + x + p.close, r1, c, p.open + y + p.close, Wrap(y, start, end), b);
  }

  /** Two `open` x `close` groups, with no lead byte anywhere but at their
      starts, both wrapped in `start` and `end`. */
  lemma TwoWrapped(p: Pattern, a: string, x: string, c: string, y: string, b: string, start: string, end: string)
    requires p.Delimited? && p.close != []
    requires Lacks(a, Lead(p)) && Lacks(x, Lead(p)) && Lacks(c, Lead(p)) && Lacks(b, Lead(p))
    requires Lacks(start, Lead(p)) && Lacks(end, Lead(p))
    requires NoNewline(x) && Lacks(x, p.close[0]) && NoNewline(y) && Lacks(y, p.close[0])
    ensures var s := a + (p.open + x + p.close) + c + (p.open + y + p.close) + b;
      ReplaceEach(s, WrapEdits(s, FindAll(p, s, 0), start, end)) ==
        a + Wrap(x, start, end) + c + Wrap(y, start, end) + b
  {
    var w1 := p.open + x + p.close;
    TwoDelimited(p, a, x, c, y, b);
    TwoEncloses(a, p.open, x, c, y, p.close, b);
    TwoWrappedAt(p, a + w1 + c + (p.open + y + p.close) + b, |a|, x, |a| + |w1| + |c|, y, start, end);
    ReplaceTwoWrapped(p, a, x, c, y, b, start, end);
  }

  /** Two groups become two parenthesised texts, as in "this \(x\) always and \(y\).". */
  lemma TwoEscapedGroups(a: string, x: string, c: string, y: string, b: string)
    requires Lacks(a, '\\') && Lacks(x, '\\') && Lacks(c, '\\') && Lacks(y, '\\') && Lacks(b, '\\')
    requires NoNewline(x) && NoNewline(y)
    ensures UnescapedParens(a + (ParenOpen + x + ParenClose) + c + (ParenOpen + y + ParenClose) + b) ==
      a + Wrap(x, "(", ")") + c + Wrap(y, "(", ")") + b
  {
    TwoWrapped(EscapedParens, a, x, c, y, b, "(", ")");
  }

  /** A second pass over `a \(x\) b` changes nothing: the first pass leaves no '\'. */
  lemma OneEscapedGroupTwice(a: string, x: string, b: string)
    requires Lacks(a, '\\') && Lacks(x, '\\') && Lacks(b, '\\') && NoNewline(x)
    ensures var once := UnescapedParens(a + (ParenOpen + x + ParenClose) + b);
      UnescapedParens(once) == once
  {
    OneEscapedGroup(a, x, b);
    assert Lacks("(", '\\') && Lacks(")", '\\');
    LacksConcat("(", x, '\\');
    LacksConcat("(" + x, ")", '\\');
    LacksConcat(a, "(" + x + ")", '\\');
    LacksConcat(a + ("(" + x + ")"), b, '\\');
    NoBackslashUnchanged(a + ("(" + x + ")") + b);
  }

  /** Nested escapes: the lazy group of `\(\(x\)\)` stops at the first `\)`, so
      one pass gives `(\(x)\)`, which still holds an escaped pair, and a second
      pass gives `((x))`. */
  lemma NestedEscapesTwoPasses(x: string)
    requires Lacks(x, '\\') && NoNewline(x)
    ensures var once := UnescapedParens(ParenOpen + ParenOpen + x + ParenClose + ParenClose);
      once == "(" + ParenOpen + x + ")" + ParenClose &&
      UnescapedParens(once) == "((" + x + "))" && UnescapedParens(once) != once
  {
    NestedFirstPass(x);
    NestedSecondPass(x);
  }

  /** The second pass: `(` + `\(x)\)` has the one group `x)`. */
  lemma NestedSecondPass(x: string)
    requires Lacks(x, '\\') && NoNewline(x)
    ensures UnescapedParens("(" + ParenOpen + x + ")" + ParenClose) == "((" + x + "))"
  {
    var y := x + ")";
    assert Lacks(")", '\\') && NoNewline(")") && Lacks("(", '\\') && Lacks([], '\\');
    LacksConcat(x, ")", '\\');
    assert NoNewline(y) by {
      assert forall i :: 0 <= i < |x| ==> y[i] == x[i];
    }
    assert "(" + (ParenOpen + y + ParenClose) + [] == "(" + ParenOpen + x + ")" + ParenClose;
    assert "(" + ("(" + y + ")") + [] == "((" + x + "))";
    OneEscapedGroup("(", y, []);
  }

  /** The first pass over `\(\(x\)\)`: one match, `\(\(x\)`, with group `\(x`. */
  lemma NestedFirstPass(x: string)
    requires Lacks(x, '\\') && NoNewline(x)
    ensures UnescapedParens(ParenOpen + ParenOpen + x + ParenClose + ParenClose) == "(" + ParenOpen + x + ")" + ParenClose
  {
    var s := ParenOpen + ParenOpen + x + ParenClose + ParenClose;
    var k := 4 + |x|;
    var m := Match(0, k + 2, 2, k, k + 2, k + 2);
    NestedBytes(x, s);
    NestedMatch(x, s);
    assert FindAll(EscapedParens, s, 0) == [m] by {
      FindAllCons(EscapedParens, s, 0, m);
      NestedRest(x, s);
    }
    NestedEdit(x, s, m);
  }

  /** Replacing that match by its group in parentheses. */
  lemma NestedEdit(x: string, s: string, m: Match)
    requires s == ParenOpen + ParenOpen + x + ParenClose + ParenClose
    requires m == Match(0, |x| + 6, 2, |x| + 4, |x| + 6, |x| + 6)
    ensures Within(s, m)
    ensures ReplaceEach(s, WrapEdits(s, [m], "(", ")")) == "(" + ParenOpen + x + ")" + ParenClose
  {
    var w, y := ParenOpen + ParenOpen + x + ParenClose, ParenOpen + x;
    var r := Wrap(y, "(", ")");
    assert WrapEdits(s, [m], "(", ")") == [(w, r)] by {
      assert s == w + ParenClose && |w| == |x| + 6;
      assert Whole(s, m) == w by {
        assert s[0..|w|] == w;
      }
      assert Group1(s, m) == y by {
        assert w == ParenOpen + y + ParenClose;
        assert s[2..|x| + 4] == w[2..|x| + 4] == y;
      }
    }
    assert ReplaceEach(s, [(w, r)]) == r + ParenClose by {
      assert s == w + ParenClose;
      ReplaceAtStart(w, ParenClose, r);
    }
    assert r + ParenClose == "(" + ParenOpen + x + ")" + ParenClose;
  }

  /** A text that starts with `w`: its first occurrence is replaced there. */
  lemma ReplaceAtStart(w: string, b: string, repl: string)
    requires w != []
    ensures ReplaceEach(w + b, [(w, repl)]) == repl + b
  {
    var s := w + b;
    assert OccursAt(s, w, 0) by {
      assert s[0..|w|] == w;
      OccursAtSlice(s, w, 0);
    }
    assert IndexFrom(s, w, 0) == Some(0);
    assert s[..0] == [] && s[|w|..] == b;
    assert ReplaceFirst(s, w, repl) == repl + b;
    assert [(w, repl)][1..] == [];
  }

  /** The bytes of `\(\(x\)\)`. */
  lemma NestedBytes(x: string, s: string)
    requires s == ParenOpen + ParenOpen + x + ParenClose + ParenClose
    ensures |s| == |x| + 8
    ensures s[0] == '\\' && s[1] == '(' && s[2] == '\\' && s[3] == '('
    ensures s[|x| + 4] == '\\' && s[|x| + 5] == ')' && s[|x| + 6] == '\\' && s[|x| + 7] == ')'
    ensures forall i :: 4 <= i < 4 + |x| ==> s[i] == x[i - 4]
  {
  }

  /** The match at the start of `\(\(x\)\)` ends at the first `\)`. */
  lemma NestedMatch(x: string, s: string)
    requires Lacks(x, '\\') && NoNewline(x)
    requires |s| == |x| + 8
    requires s[0] == '\\' && s[1] == '(' && s[2] == '\\' && s[3] == '('
    requires s[|x| + 4] == '\\' && s[|x| + 5] == ')' && s[|x| + 6] == '\\' && s[|x| + 7] == ')'
    requires forall i :: 4 <= i < 4 + |x| ==> s[i] == x[i - 4]
    ensures var k := 4 + |x|; MatchAt(EscapedParens, s, 0) == Some(Match(0, k + 2, 2, k, k + 2, k + 2))
  {
    var k := 4 + |x|;
    OccursAtSlice(s, ParenOpen, 0);
    OccursAtSlice(s, ParenClose, k);
    assert s[0..2] == ParenOpen && s[k..k + 2] == ParenClose;
    assert k <= NewlineFrom(s, 2) by {
      NewlineFromPast(s, 2, k);
    }
    assert Delimits(s, 0, ParenOpen, ParenClose, k);
    assert forall j :: j < k ==> !Delimits(s, 0, ParenOpen, ParenClose, j);
    DelimitedAtSpec(s, 0, ParenOpen, ParenClose);
  }

  /** After that match only `\)` is left, and no match starts there. */
  lemma NestedRest(x: string, s: string)
    requires |s| == |x| + 8 && s[|x| + 6] == '\\' && s[|x| + 7] == ')'
    ensures FindAll(EscapedParens, s, 6 + |x|) == []
  {
    var k := 4 + |x|;
    assert MatchAt(EscapedParens, s, k + 2).None? by {
      OccursAtSlice(s, ParenOpen, k + 2);
    }
    NoLeadNoMatch(EscapedParens, s, k + 3, k + 4);
    assert FindAll(EscapedParens, s, k + 3) == [];
  }

  // ---------------------------------------------------------------------------
  // unescapePageRefs

  /** A line without '{' is left as it is. */
  lemma NoBraceUnchanged(s: string)
    requires Lacks(s, '{')
    ensures UnescapedPageRefs(s) == s
  {
    NoLeadNoMatch(PageRef, s, 0, |s|);
    FindAllEmpty(PageRef, s, 0);
  }

  /** One reference becomes a quoted link to the same target. */
  lemma OnePageRef(a: string, x: string, b: string)
    requires Lacks(a, '{') && Lacks(b, '{') && NoNewline(x) && Lacks(x, '"')
    ensures UnescapedPageRefs(a + (RefOpen + x + RefClose) + b) == a + RefLink(x) + b
  {
    var w := RefOpen + x + RefClose;
    var s := a + w + b;
    var m := Framed(|a|, RefOpen, x, RefClose);
    OneDelimited(PageRef, a, x, b);
    EnclosedTexts(s, |a|, RefOpen, x, RefClose);
    assert RefEdits(s, [m]) == [(w, RefLink(x))];
    ReplaceOne(a, w, b, RefLink(x));
  }

  /** The title of a reference is its last path element, without ".md", title-cased. */
  lemma RefTitleBase(dir: string, name: string)
    requires name != [] && HasNoSlash(name)
    ensures RefTitle(dir + "/" + name) == Title(TrimSuffix(name, MarkdownSuffix))
  {
    var t := dir + "/" + name;
    assert t[|dir|] == '/';
    forall j | |dir| < j < |t|
      ensures t[j] != '/'
    {
      assert t[j] == name[j - |dir| - 1];
    }
    assert LastIndexOf(t, '/') == Some(|dir|);
    assert t[|dir| + 1..] == name;
  }

  /** A target without '/' is its own last element. */
  lemma RefTitleNoSlash(target: string)
    requires HasNoSlash(target)
    ensures RefTitle(target) == Title(TrimSuffix(target, MarkdownSuffix))
  {
  }

  /** A target ending in '/' keeps its whole text. */
  lemma RefTitleTrailingSlash(target: string)
    requires target != [] && target[|target| - 1] == '/'
    ensures RefTitle(target) == Title(target)
  {
  }

  // ---------------------------------------------------------------------------
  // unescapeLinks

  /** A line without '[' holds no link and is left as it is. */
  lemma NoBracketUnchanged(wikiRepo: string, s: string)
    requires Lacks(s, '[')
    ensures UnescapedLinks(false, wikiRepo, s) == Ok(s)
  {
    NoLeadNoMatch(Link, s, 0, |s|);
    FindAllEmpty(Link, s, 0);
  }

  /** The conditions under which '[' + `t` + "](" + `u` + ')' is read as one link. */
  predicate PlainLink(t: string, u: string) {
    NoNewline(t) && Lacks(t, ']') && u != [] && Lacks(u, '(') && Lacks(u, ')')
  }

  /** A link between two texts without '[' is the only match. */
  lemma OneLink(a: string, t: string, u: string, b: string)
    requires Lacks(a, '[') && Lacks(b, '[') && PlainLink(t, u)
    ensures var s := a + LinkText(t, u) + b; var m := LinkMatch(|a|, t, u);
      FindAll(Link, s, 0) == [m] && Within(s, m) &&
      Whole(s, m) == LinkText(t, u) && Group1(s, m) == t && Group2(s, m) == u
  {
    var w := LinkText(t, u);
    var s := a + w + b;
    LinkEnclosesBase(t, u);
    LinkEnclosesLeft(a, w, 0, t, u);
    LinkEnclosesRight(a + w, b, |a|, t, u);
    ClearRight(a, w, 0, |a|, '[');
    ClearRight(a + w, b, 0, |a|, '[');
    ClearLeft(a + w, b, 0, |b|, '[');
    LinkEnclosedMatch(s, |a|, t, u);
    LinkEnclosedTexts(s, |a|, t, u);
    OnlyMatch(Link, s, LinkMatch(|a|, t, u));
  }

  /** The outcome for a line with one link is the outcome of that link's step. */
  lemma OneLinkStep(wikiRepo: string, a: string, t: string, u: string, b: string)
    requires Lacks(a, '[') && Lacks(b, '[') && PlainLink(t, u)
    ensures var s := a + LinkText(t, u) + b;
      UnescapedLinks(false, wikiRepo, s) ==
        match LinkStepOf(s, LinkMatch(|a|, t, u), wikiRepo)
        case Leave => Ok(s)
        case Replace(o, n) => Ok(ReplaceFirst(s, o, n))
        case MissingTitle => Fail
  {
    var s := a + LinkText(t, u) + b;
    var m := LinkMatch(|a|, t, u);
    OneLink(a, t, u, b);
    ApplyOneStep(s, m, wikiRepo);
  }

  /** The link steps of a single match. */
  lemma ApplyOneStep(s: string, m: Match, wikiRepo: string)
    requires Within(s, m)
    ensures ApplyLinkSteps(s, s, [m], wikiRepo) ==
      match LinkStepOf(s, m, wikiRepo)
      case Leave => Some(s)
      case Replace(o, n) => Some(ReplaceFirst(s, o, n))
      case MissingTitle => None
  {
    assert [m][1..] == [];
  }

  /** A link to an http target is left untouched. */
  lemma HttpLinkKept(wikiRepo: string, a: string, t: string, u: string, b: string)
    requires Lacks(a, '[') && Lacks(b, '[') && PlainLink(t, u) && StartsWith(u, HttpPrefix)
    ensures UnescapedLinks(false, wikiRepo, a + LinkText(t, u) + b) == Ok(a + LinkText(t, u) + b)
  {
    OneLink(a, t, u, b);
    OneLinkStep(wikiRepo, a, t, u, b);
  }

  /** A link to an asset has the first occurrence of its target in the line
      replaced by the resolved link — wherever that occurrence is. */
  lemma AssetLinkResolved(wikiRepo: string, a: string, t: string, u: string, b: string)
    requires Lacks(a, '[') && Lacks(b, '[') && PlainLink(t, u)
    requires !StartsWith(u, HttpPrefix) && !EndsWith(u, MarkdownSuffix)
    ensures var s := a + LinkText(t, u) + b;
      UnescapedLinks(false, wikiRepo, s) == Ok(ReplaceFirst(s, u, ResolveLink(u, false, wikiRepo)))
  {
    OneLink(a, t, u, b);
    OneLinkStep(wikiRepo, a, t, u, b);
  }

  /** The pieces of a line with a link around its target ... */
  lemma AroundTarget(a: string, t: string, u: string, b: string)
    ensures a + LinkText(t, u) + b == (a + "[" + t + "](") + u + (")" + b)
  {
  }

  /** ... and around its title. */
  lemma AroundTitle(a: string, t: string, u: string, b: string)
    ensures a + LinkText(t, u) + b == (a + "[") + t + ("](" + u + ")" + b)
  {
  }

  /** When nothing before the target starts with its first byte, the target
      itself is what gets replaced. */
  lemma AssetLinkInPlace(wikiRepo: string, a: string, t: string, u: string, b: string)
    requires Lacks(a, '[') && Lacks(b, '[') && PlainLink(t, u)
    requires !StartsWith(u, HttpPrefix) && !EndsWith(u, MarkdownSuffix)
    requires Lacks(a + "[" + t + "](", u[0])
    ensures UnescapedLinks(false, wikiRepo, a + LinkText(t, u) + b) ==
      Ok(a + LinkText(t, ResolveLink(u, false, wikiRepo)) + b)
  {
    var link := ResolveLink(u, false, wikiRepo);
    AssetLinkResolved(wikiRepo, a, t, u, b);
    AroundTarget(a, t, u, b);
    ReplaceFirstAfter(a + "[" + t + "](", u, ")" + b, link);
    AroundTarget(a, t, link, b);
  }

  /** ... but a title equal to the target comes first, and it is the title that
      gets replaced. */
  lemma AssetTitleReplaced(wikiRepo: string, a: string, u: string, b: string)
    requires Lacks(a, '[') && Lacks(b, '[') && PlainLink(u, u) && u[0] != '[' && Lacks(a, u[0])
    requires !StartsWith(u, HttpPrefix) && !EndsWith(u, MarkdownSuffix)
    ensures UnescapedLinks(false, wikiRepo, a + LinkText(u, u) + b) ==
      Ok(a + LinkText(ResolveLink(u, false, wikiRepo), u) + b)
  {
    var link := ResolveLink(u, false, wikiRepo);
    AssetLinkResolved(wikiRepo, a, u, u, b);
    AroundTitle(a, u, u, b);
    assert Lacks("[", u[0]) by { assert "["[0] == '['; }
    LacksConcat(a, "[", u[0]);
    ReplaceFirstAfter(a + "[", u, "](" + u + ")" + b, link);
    AroundTitle(a, link, u, b);
  }

  /** A link to a page without a title is an error. */
  lemma PageLinkWithoutTitle(wikiRepo: string, a: string, u: string, b: string)
    requires Lacks(a, '[') && Lacks(b, '[') && PlainLink([], u)
    requires !StartsWith(u, HttpPrefix) && EndsWith(u, MarkdownSuffix)
    ensures UnescapedLinks(false, wikiRepo, a + LinkText([], u) + b) == Fail
  {
    OneLink(a, [], u, b);
    OneLinkStep(wikiRepo, a, [], u, b);
  }

  /** A titled link to a page becomes a wiki link `[[t|page]]`. */
  lemma PageLinkToWiki(wikiRepo: string, a: string, t: string, u: string, b: string)
    requires Lacks(a, '[') && Lacks(b, '[') && PlainLink(t, u) && t != []
    requires !StartsWith(u, HttpPrefix) && EndsWith(u, MarkdownSuffix)
    ensures UnescapedLinks(false, wikiRepo, a + LinkText(t, u) + b) ==
      Ok(a + ("[[" + t + "|" + ResolveLink(u, false, wikiRepo) + "]]") + b)
  {
    var w := LinkText(t, u);
    OneLink(a, t, u, b);
    OneLinkStep(wikiRepo, a, t, u, b);
    ReplaceFirstAfter(a, w, b, "[[" + t + "|" + ResolveLink(u, false, wikiRepo) + "]]");
  }
}
