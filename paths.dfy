/** Path resolver: where a converted file is written, and the token a wiki link
    uses to reach it.  Paths are slash-separated and relative to the book root. */
module Paths {
  import opened Text

  const ReadmeName := "README.md"
  const SummaryName := "SUMMARY.md"
  const HomeName := "Home.md"
  const SidebarName := "_Sidebar.md"
  /** Asset folder of the authoring tool, and the folder it becomes in the wiki. */
  const AssetsSource := ".gitbook/assets"
  const AssetsDir := "_assets"
  const MarkdownSuffix := ".md"

  predicate HasNoSlash(s: string) {
    forall i :: 0 <= i < |s| ==> s[i] != '/'
  }

  /** `path.Dir` of a clean relative path: everything before the last slash, or ".". */
  function Dir(p: string): string {
    match LastIndexOf(p, '/')
    case None => "."
    case Some(i) => p[..i]
  }

  /** `path.Base` of a clean relative path: everything after the last slash. */
  function Base(p: string): (r: string)
    ensures HasNoSlash(r)
  {
    if p == [] then "."
    else match LastIndexOf(p, '/')
      case None => p
      case Some(i) => p[i + 1..]
  }

  /** `path.Join` of two clean parts. */
  function Join(a: string, b: string): string {
    if a == [] then b else if b == [] then a else a + "/" + b
  }

  /** The directory part as `resolvePath` uses it: "." becomes the empty string. */
  function DirPart(p: string): string {
    if Dir(p) == "." then "" else Dir(p)
  }

  /** Every slash of a directory turned into a hyphen. */
  function Hyphenate(dir: string): string {
    ReplaceAll(dir, "/", "-")
  }

  /** The path with every "../" deleted. */
  function StripParents(name: string): string {
    ReplaceAll(name, "../", "")
  }

  /** `resolvePath`: the output path of a source file. */
  function ResolvePath(name: string, keepLinks: bool): (r: string)
    ensures keepLinks ==> r == name
  {
    if keepLinks then name
    else
      var n := StripParents(name);
      var dir := DirPart(n);
      var base := Base(n);
      if base == ReadmeName then Join(dir, HomeName)
      else if base == SummaryName then Join(dir, SidebarName)
      else if StartsWith(n, AssetsSource) then ReplaceAll(n, AssetsSource, AssetsDir)
      else Join(dir, Hyphenate(dir) + (if dir != "" then "-" + base else base))
  }

  /** `resolveLink`: an absolute link for an asset, the bare page name otherwise. */
  function ResolveLink(name: string, keepLinks: bool, wikiRepo: string): (r: string)
    ensures keepLinks ==> r == name
    ensures !keepLinks && StartsWith(ResolvePath(name, keepLinks), AssetsDir) && wikiRepo != "" ==>
      r == wikiRepo + "/" + ResolvePath(name, keepLinks)
  {
    var out := ResolvePath(name, keepLinks);
    if keepLinks then out
    else if StartsWith(out, AssetsDir) then Join(wikiRepo, out)
    else TrimSuffix(Base(out), MarkdownSuffix)
  }

  // ---------------------------------------------------------------------------
  // Lemmas about the primitives

  /** A text lacking one of the bytes of `pat` is left alone by ReplaceAll. */
  lemma {:induction false} ReplaceAllAbsent(s: string, pat: string, repl: string, k: nat)
    requires k < |pat|
    requires forall i :: 0 <= i < |s| ==> s[i] != pat[k]
    ensures ReplaceAll(s, pat, repl) == s
    decreases |s|
  {
    if |s| >= |pat| {
      assert s[..|pat|] != pat by { assert s[k] != pat[k]; }
      ReplaceAllAbsent(s[1..], pat, repl, k);
    }
  }

  /** ReplaceAll of a one-byte pattern handles the text before its first occurrence as is. */
  lemma {:induction false} ReplaceAllAtFirst(a: string, b: string, c: char, repl: string)
    requires forall i :: 0 <= i < |a| ==> a[i] != c
    ensures ReplaceAll(a + [c] + b, [c], repl) == a + repl + ReplaceAll(b, [c], repl)
    decreases |a|
  {
    var s := a + [c] + b;
    if a == [] {
      assert s[..1] == [c] && s[1..] == b;
    } else {
      assert s[0] == a[0] && s[..1] != [c];
      assert s[1..] == a[1..] + [c] + b;
      ReplaceAllAtFirst(a[1..], b, c, repl);
      assert [s[0]] + a[1..] == a;
    }
  }

  lemma {:induction false} ReplaceAllRemoves(s: string, c: char, d: char)
    requires c != d
    ensures forall i :: 0 <= i < |ReplaceAll(s, [c], [d])| ==> ReplaceAll(s, [c], [d])[i] != c
    decreases |s|
  {
    if |s| >= 1 {
      ReplaceAllRemoves(s[1..], c, d);
    }
  }

  lemma HyphenatedHasNoSlash(dir: string)
    ensures HasNoSlash(Hyphenate(dir))
  {
    ReplaceAllRemoves(dir, '/', '-');
  }

  /** Joining a non-empty directory and a slash-free name splits back into the two. */
  lemma JoinSplits(d: string, b: string)
    requires d != [] && b != [] && HasNoSlash(b)
    ensures Dir(Join(d, b)) == d && Base(Join(d, b)) == b
  {
    var s := d + "/" + b;
    assert s[|d|] == '/';
    var li := LastIndexOf(s, '/');
    assert li.Some?;
    assert li.value == |d|;
    assert s[..|d|] == d;
    assert s[|d| + 1..] == b;
  }

  lemma DirPartOfJoin(d: string, b: string)
    requires b != [] && HasNoSlash(b)
    requires d != "."
    ensures DirPart(Join(d, b)) == d && Base(Join(d, b)) == b
  {
    if d == [] {
      assert LastIndexOf(b, '/').None?;
    } else {
      JoinSplits(d, b);
    }
  }

  /** The link token of a page, from its already resolved output path. */
  lemma PageLinkFromOutput(name: string, out: string, wikiRepo: string)
    requires ResolvePath(name, false) == out && !StartsWith(out, AssetsDir)
    ensures ResolveLink(name, false, wikiRepo) == TrimSuffix(Base(out), MarkdownSuffix)
  {
  }

  // ---------------------------------------------------------------------------
  // Properties of the resolver

  /** README.md becomes Home.md and SUMMARY.md becomes _Sidebar.md, in the same directory. */
  lemma SpecialPagesRenamedInPlace(name: string)
    ensures var n := StripParents(name);
      var r := ResolvePath(name, false);
      (Base(n) == ReadmeName ==> Base(r) == HomeName && DirPart(r) == DirPart(n)) &&
      (Base(n) == SummaryName ==> Base(r) == SidebarName && DirPart(r) == DirPart(n))
  {
    var n := StripParents(name);
    assert Dir(n) != "." ==> DirPart(n) == Dir(n);
    if Base(n) == ReadmeName {
      DirPartOfJoin(DirPart(n), HomeName);
    } else if Base(n) == SummaryName {
      DirPartOfJoin(DirPart(n), SidebarName);
    }
  }

  /** A path under the asset folder moves to `_assets`, keeping what follows the folder name. */
  lemma AssetsRelocated(name: string)
    requires var n := StripParents(name);
      Base(n) != ReadmeName && Base(n) != SummaryName && StartsWith(n, AssetsSource)
    ensures var n := StripParents(name);
      ResolvePath(name, false) == AssetsDir + ReplaceAll(n[|AssetsSource|..], AssetsSource, AssetsDir)
    ensures StartsWith(ResolvePath(name, false), AssetsDir)
  {
    var n := StripParents(name);
    assert n[..|AssetsSource|] == AssetsSource;
    var r := ResolvePath(name, false);
    assert r == AssetsDir + ReplaceAll(n[|AssetsSource|..], AssetsSource, AssetsDir);
    assert r[..|AssetsDir|] == AssetsDir;
  }

  /** Any other page stays in its directory `d` under the base name `d` (hyphenated) + "-" + base,
      so that base names are unique across the flat wiki namespace; a root-level name keeps its base. */
  lemma FlattenedIntoOwnDirectory(name: string)
    requires var n := StripParents(name);
      Base(n) != ReadmeName && Base(n) != SummaryName && !StartsWith(n, AssetsSource)
    requires Base(StripParents(name)) != []
    ensures var n := StripParents(name);
      var d := DirPart(n);
      var r := ResolvePath(name, false);
      DirPart(r) == d &&
      Base(r) == (if d == "" then Base(n) else Hyphenate(d) + "-" + Base(n)) &&
      HasNoSlash(Base(r))
  {
    var n := StripParents(name);
    var d := DirPart(n);
    var b := Base(n);
    HyphenatedHasNoSlash(d);
    var nb := Hyphenate(d) + (if d != "" then "-" + b else b);
    if d == [] {
      assert Hyphenate(d) == [];
      assert nb == b;
      DirPartOfJoin(d, nb);
    } else {
      assert HasNoSlash(nb);
      DirPartOfJoin(d, nb);
    }
  }

  /** The output path of an ordinary page in a directory. */
  lemma PageInDirectoryOutput(name: string)
    requires var n := StripParents(name);
      Base(n) != ReadmeName && Base(n) != SummaryName && !StartsWith(n, AssetsSource) && DirPart(n) != ""
    ensures var n := StripParents(name);
      ResolvePath(name, false) == Join(DirPart(n), Hyphenate(DirPart(n)) + "-" + Base(n))
  {
  }

  /** A root-level page (no slash, not README.md or SUMMARY.md) keeps its name. */
  lemma RootPageUnchanged(name: string)
    requires name != [] && HasNoSlash(name)
    requires name != ReadmeName && name != SummaryName
    ensures ResolvePath(name, false) == name
  {
    ReplaceAllAbsent(name, "../", "", 2);
    assert LastIndexOf(name, '/').None?;
    assert AssetsSource[8] == '/';
    assert !StartsWith(name, AssetsSource) by {
      assert |AssetsSource| > 8;
      assert |name| >= |AssetsSource| ==> name[..|AssetsSource|][8] == name[8] != '/';
    }
    assert Hyphenate("") == "";
  }

  /** The link token of a page is the base name of its output file without ".md",
      and holds no slash: wiki links resolve against the flat page namespace. */
  lemma PageLinkNamesOutputFile(name: string, wikiRepo: string)
    requires var out := ResolvePath(name, false);
      !StartsWith(out, AssetsDir) && EndsWith(Base(out), MarkdownSuffix)
    ensures var out := ResolvePath(name, false);
      ResolveLink(name, false, wikiRepo) + MarkdownSuffix == Base(out) &&
      HasNoSlash(ResolveLink(name, false, wikiRepo))
  {
    var out := ResolvePath(name, false);
    var b := Base(out);
    assert b[..|b| - 3] + b[|b| - 3..] == b;
  }
}
