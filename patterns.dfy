/** Dedicated matchers for the converter's three regular expressions, with Go's
    leftmost-first semantics: the lazy group `(.*?)` takes the shortest text that
    lets the rest match, and `.` never crosses a '\n'.
      EscapedParens  \\\((.*?)\\\)
      PageRef        {% page-ref page="(.*?)" %}
      Link           \[(.*?)]\(([^()]+)\)                                          */
module Patterns {
  import opened Text

  /** An opening delimiter: never empty, so every match moves the search on. */
  type Delimiter = s: string | |s| > 0 witness "("

  /** `open` (.*?) `close`, or the link pattern. */
  datatype Pattern = Delimited(open: Delimiter, close: string) | Link

  /** A match of a pattern in a text: its bounds and the bounds of its groups
      (the second group is empty for the patterns with one group). */
  datatype Match = Match(start: nat, end: nat, group1Start: nat, group1End: nat, group2Start: nat, group2End: nat)

  const ParenOpen: Delimiter := "\\("
  const ParenClose := "\\)"
  const RefOpen: Delimiter := "{% page-ref page=\""
  const RefClose := "\" %}"

  const EscapedParens := Delimited(ParenOpen, ParenClose)
  const PageRef := Delimited(RefOpen, RefClose)

  /** The groups of `m` lie inside the match, and the match inside `s`. */
  predicate Within(s: string, m: Match) {
    m.start <= m.group1Start <= m.group1End <= m.end <= |s| &&
    m.start <= m.group2Start <= m.group2End <= m.end
  }

  /** The matched text. */
  function Whole(s: string, m: Match): string
    requires m.start <= m.end <= |s|
  {
    s[m.start..m.end]
  }

  /** The text of the first group. */
  function Group1(s: string, m: Match): string
    requires Within(s, m)
  {
    s[m.group1Start..m.group1End]
  }

  /** The text of the second group. */
  function Group2(s: string, m: Match): string
    requires Within(s, m)
  {
    s[m.group2Start..m.group2End]
  }

  // ---------------------------------------------------------------------------
  // `.` and `[^()]`: runs up to the first byte they do not match

  /** The first '\n' at or after `j`, or the end of the text: `.*` can span
      s[j..r] for every r up to it. */
  function NewlineFrom(s: string, j: nat): (r: nat)
    requires j <= |s|
    ensures j <= r <= |s| && (r < |s| ==> s[r] == '\n')
    decreases |s| - j
  {
    if j == |s| || s[j] == '\n' then j else NewlineFrom(s, j + 1)
  }

  /** No '\n' before the first one. */
  lemma {:induction false} NewlineFromRun(s: string, j: nat, k: nat)
    requires j <= k < |s| && k < NewlineFrom(s, j)
    ensures s[k] != '\n'
    decreases k - j
  {
    if j < k {
      NewlineFromRun(s, j + 1, k);
    }
  }

  /** A '\n' at `k` bounds the run from `j`. */
  lemma NewlineBounds(s: string, j: nat, k: nat)
    requires j <= k < |s| && s[k] == '\n'
    ensures NewlineFrom(s, j) <= k
  {
    if k < NewlineFrom(s, j) {
      NewlineFromRun(s, j, k);
    }
  }

  predicate IsParen(c: char) {
    c == '(' || c == ')'
  }

  /** The first parenthesis at or after `j`, or the end of the text. */
  function ParenFrom(s: string, j: nat): (r: nat)
    requires j <= |s|
    ensures j <= r <= |s| && (r < |s| ==> IsParen(s[r]))
    decreases |s| - j
  {
    if j == |s| || IsParen(s[j]) then j else ParenFrom(s, j + 1)
  }

  /** No parenthesis before the first one. */
  lemma {:induction false} ParenFromRun(s: string, j: nat, k: nat)
    requires j <= k < |s| && k < ParenFrom(s, j)
    ensures !IsParen(s[k])
    decreases k - j
  {
    if j < k {
      ParenFromRun(s, j + 1, k);
    }
  }

  /** A run without '\n' from `j` to `k` leaves the first '\n' at `k` or later. */
  lemma {:induction false} NewlineFromPast(s: string, j: nat, k: nat)
    requires j <= k <= |s| && forall q :: j <= q < k ==> s[q] != '\n'
    ensures k <= NewlineFrom(s, j)
    decreases k - j
  {
    if j < k {
      NewlineFromPast(s, j + 1, k);
    }
  }

  /** A parenthesis at `k` after a run without one is the first from `j`. */
  lemma {:induction false} ParenFromIs(s: string, j: nat, k: nat)
    requires j <= k < |s| && IsParen(s[k]) && forall q :: j <= q < k ==> !IsParen(s[q])
    ensures ParenFrom(s, j) == k
    decreases k - j
  {
    if j < k {
      ParenFromIs(s, j + 1, k);
    }
  }

  // ---------------------------------------------------------------------------
  // `open` (.*?) `close`

  /** At `i`, `open` followed by a text without '\n' that ends where `close` occurs at `j`. */
  predicate Delimits(s: string, i: nat, open: string, close: string, j: int) {
    i + |open| <= j && OccursAt(s, open, i) && OccursAt(s, close, j) &&
    j <= NewlineFrom(s, i + |open|)
  }

  /** The match of `open` (.*?) `close` starting at `i`: the lazy group stops at the
      first `close`. */
  function DelimitedAt(s: string, i: nat, open: string, close: string): (r: Option<Match>)
    requires i <= |s|
    ensures r.Some? ==> r.value.start == i && i + |open| + |close| <= r.value.end && Within(s, r.value)
  {
    if !OccursAt(s, open, i) then None
    else match IndexFrom(s, close, i + |open|)
      case None => None
      case Some(j) =>
        if j <= NewlineFrom(s, i + |open|) then Some(Match(i, j + |close|, i + |open|, j, j + |close|, j + |close|))
        else None
  }

  /** What `DelimitedAt` finds: the match whose group ends where `close` first
      follows `open` and a run without '\n'; None when there is no such place. */
  lemma DelimitedAtSpec(s: string, i: nat, open: string, close: string)
    requires i <= |s|
    ensures var r := DelimitedAt(s, i, open, close);
      (r.Some? ==> var j := r.value.group1End;
        Delimits(s, i, open, close, j) &&
        r.value == Match(i, j + |close|, i + |open|, j, j + |close|, j + |close|) &&
        forall j' :: j' < j ==> !Delimits(s, i, open, close, j')) &&
      (r.None? ==> forall j :: !Delimits(s, i, open, close, j))
  {
  }

  // ---------------------------------------------------------------------------
  // \[(.*?)]\(([^()]+)\)

  /** At `i`, '[' + a title without '\n' + "](" at `t` + a non-empty run of
      non-parentheses (the target) closed by ')'. */
  predicate LinkAt(s: string, i: nat, t: nat) {
    i < t && t + 2 <= |s| && s[i] == '[' && t <= NewlineFrom(s, i + 1) &&
    s[t] == ']' && s[t + 1] == '(' &&
    var e := ParenFrom(s, t + 2); t + 2 < e < |s| && s[e] == ')'
  }

  /** The link starting at `i` whose title ends at `t` or later: the lazy title
      stops at the first "](" that is followed by a target and ')'. */
  function LinkFrom(s: string, i: nat, t: nat): (r: Option<Match>)
    requires i < t <= |s|
    ensures r.Some? ==> r.value.start == i < r.value.end && Within(s, r.value)
    decreases |s| - t
  {
    if t + 2 > |s| || s[t] == '\n' then None
    else
      var e := ParenFrom(s, t + 2);
      if s[t] == ']' && s[t + 1] == '(' && t + 2 < e < |s| && s[e] == ')' then
        Some(Match(i, e + 1, i + 1, t, t + 2, e))
      else
        LinkFrom(s, i, t + 1)
  }

  /** What `LinkFrom` finds is a link whose title ends at `t` or later; the first
      group is the title and the second the target up to the closing ')'. */
  lemma {:induction false} LinkFromSome(s: string, i: nat, t: nat)
    requires i < t <= |s| && s[i] == '[' && t <= NewlineFrom(s, i + 1) && LinkFrom(s, i, t).Some?
    ensures var m := LinkFrom(s, i, t).value;
      t <= m.group1End && LinkAt(s, i, m.group1End) && m.group1Start == i + 1 &&
      m.group2Start == m.group1End + 2 && m.group2End == ParenFrom(s, m.group2Start) &&
      m.end == m.group2End + 1
    decreases |s| - t
  {
    var e := ParenFrom(s, t + 2);
    if !(s[t] == ']' && s[t + 1] == '(' && t + 2 < e < |s| && s[e] == ')') {
      LinkFromSome(s, i, t + 1);
    }
  }

  /** ... and the lazy title makes it the link with the shortest such title. */
  lemma {:induction false} LinkFromFirst(s: string, i: nat, t: nat, t': nat)
    requires i < t <= |s| && s[i] == '[' && LinkFrom(s, i, t).Some?
    requires t <= t' < LinkFrom(s, i, t).value.group1End
    ensures !LinkAt(s, i, t')
    decreases |s| - t
  {
    if t < t' {
      LinkFromFirst(s, i, t + 1, t');
    }
  }

  /** Title bytes that are neither '\n' nor ']' are passed over. */
  lemma {:induction false} LinkFromSkip(s: string, i: nat, t: nat, t': nat)
    requires i < t <= t' <= |s| && forall q :: t <= q < t' ==> s[q] != '\n' && s[q] != ']'
    ensures LinkFrom(s, i, t) == LinkFrom(s, i, t')
    decreases t' - t
  {
    if t < t' {
      LinkFromSkip(s, i, t + 1, t');
    }
  }

  /** `LinkFrom` finds nothing only when no link from `i` has its title end at `t` or later. */
  lemma {:induction false} LinkFromNone(s: string, i: nat, t: nat)
    requires i < t <= |s| && s[i] == '[' && t <= NewlineFrom(s, i + 1) && LinkFrom(s, i, t).None?
    ensures forall t' :: t <= t' ==> !LinkAt(s, i, t')
    decreases |s| - t
  {
    if t + 2 > |s| {
    } else if s[t] == '\n' {
      NewlineBounds(s, i + 1, t);
    } else {
      LinkFromNone(s, i, t + 1);
    }
  }

  // ---------------------------------------------------------------------------
  // Matching anywhere

  /** The match of `p` that starts at `i`, if any. */
  function MatchAt(p: Pattern, s: string, i: nat): (r: Option<Match>)
    requires i <= |s|
    ensures r.Some? ==> r.value.start == i < r.value.end && Within(s, r.value)
  {
    match p
    case Delimited(open, close) => DelimitedAt(s, i, open, close)
    case Link => if i < |s| && s[i] == '[' then LinkFrom(s, i, i + 1) else None
  }

  /** No match of `p` starts in [a, b). */
  predicate NoMatchIn(p: Pattern, s: string, a: nat, b: nat)
    requires b <= |s| + 1
  {
    forall q :: a <= q < b ==> MatchAt(p, s, q).None?
  }

  /** `FindAllSubmatch(s, -1)` from `from` on: successive leftmost matches, each
      search resuming where the previous match ended. */
  function FindAll(p: Pattern, s: string, from: nat): (ms: seq<Match>)
    requires from <= |s|
    ensures forall k :: 0 <= k < |ms| ==> from <= ms[k].start < ms[k].end && Within(s, ms[k])
    ensures forall k :: 0 < k < |ms| ==> ms[k - 1].end <= ms[k].start
    decreases |s| - from
  {
    if from == |s| then []
    else match MatchAt(p, s, from)
      case Some(m) => [m] + FindAll(p, s, m.end)
      case None => FindAll(p, s, from + 1)
  }

  /** Every element of the list is the match of `p` at its own start. */
  lemma {:induction false} FindAllMatches(p: Pattern, s: string, from: nat, k: nat)
    requires from <= |s| && k < |FindAll(p, s, from)|
    ensures MatchAt(p, s, FindAll(p, s, from)[k].start) == Some(FindAll(p, s, from)[k])
    decreases |s| - from
  {
    if from < |s| {
      match MatchAt(p, s, from)
      case Some(m) =>
        if k > 0 {
          FindAllMatches(p, s, m.end, k - 1);
        }
      case None =>
        FindAllMatches(p, s, from + 1, k);
    }
  }

  /** The byte every match of `p` starts with. */
  function Lead(p: Pattern): char {
    match p
    case Delimited(open, _) => open[0]
    case Link => '['
  }

  lemma MatchStartsWithLead(p: Pattern, s: string, i: nat)
    requires i <= |s| && MatchAt(p, s, i).Some?
    ensures i < |s| && s[i] == Lead(p)
  {
    match p
    case Delimited(_, _) =>
    case Link =>
  }

  /** A stretch without the lead byte of `p` holds no match of `p`. */
  lemma NoLeadNoMatch(p: Pattern, s: string, a: nat, b: nat)
    requires a <= b <= |s| && forall q :: a <= q < b ==> s[q] != Lead(p)
    ensures NoMatchIn(p, s, a, b) && (b == |s| ==> NoMatchIn(p, s, a, b + 1))
  {
    forall q | a <= q && (q < b || q == |s|) && MatchAt(p, s, q).Some?
      ensures false
    {
      MatchStartsWithLead(p, s, q);
    }
  }

  /** Positions where nothing matches are passed over. */
  lemma {:induction false} FindAllSkip(p: Pattern, s: string, from: nat, q: nat)
    requires from <= q <= |s| && NoMatchIn(p, s, from, q)
    ensures FindAll(p, s, from) == FindAll(p, s, q)
    decreases q - from
  {
    if from < q {
      assert MatchAt(p, s, from).None?;
      FindAllSkip(p, s, from + 1, q);
    }
  }

  /** `ms` are the successive leftmost matches from `a` on: no match starts before
      the first one, each search resumes where the previous match ended, and no
      match starts after the last one. */
  predicate Leftmost(p: Pattern, s: string, a: nat, ms: seq<Match>)
    requires a <= |s|
    requires forall k :: 0 <= k < |ms| ==> ms[k].start <= ms[k].end <= |s|
    decreases |ms|
  {
    if ms == [] then NoMatchIn(p, s, a, |s| + 1)
    else a <= ms[0].start && NoMatchIn(p, s, a, ms[0].start) && Leftmost(p, s, ms[0].end, ms[1..])
  }

  lemma {:induction false} FindAllLeftmost(p: Pattern, s: string, from: nat)
    requires from <= |s|
    ensures Leftmost(p, s, from, FindAll(p, s, from))
    decreases |s| - from
  {
    if from < |s| {
      match MatchAt(p, s, from)
      case Some(m) =>
        FindAllLeftmost(p, s, m.end);
        assert FindAll(p, s, from)[1..] == FindAll(p, s, m.end);
      case None =>
        FindAllLeftmost(p, s, from + 1);
        LeftmostEarlier(p, s, from, FindAll(p, s, from + 1));
    }
  }

  /** A position where no match starts can be added in front. */
  lemma LeftmostEarlier(p: Pattern, s: string, a: nat, ms: seq<Match>)
    requires a < |s| && MatchAt(p, s, a).None?
    requires forall k :: 0 <= k < |ms| ==> ms[k].start <= ms[k].end <= |s|
    requires Leftmost(p, s, a + 1, ms)
    ensures Leftmost(p, s, a, ms)
  {
  }

  /** No match anywhere from `from` on exactly when the list is empty. */
  lemma FindAllEmpty(p: Pattern, s: string, from: nat)
    requires from <= |s|
    ensures FindAll(p, s, from) == [] <==> NoMatchIn(p, s, from, |s| + 1)
  {
    FindAllLeftmost(p, s, from);
    var ms := FindAll(p, s, from);
    if ms != [] {
      FindAllMatches(p, s, from, 0);
    }
  }

  // ---------------------------------------------------------------------------
  // One step of the search

  lemma FindAllCons(p: Pattern, s: string, from: nat, m: Match)
    requires from < |s| && MatchAt(p, s, from) == Some(m)
    ensures FindAll(p, s, from) == [m] + FindAll(p, s, m.end)
  {
  }

  lemma FindAllNext(p: Pattern, s: string, from: nat, next: nat)
    requires from < |s| && next == from + 1 && MatchAt(p, s, from).None?
    ensures FindAll(p, s, from) == FindAll(p, s, next)
  {
  }
}
