/** The resolver on the repository's own test pairs, and a collision that
    flattening permits.  Each example names its input through a parameter fixed
    by its precondition. */
module PathExamples {
  import opened Text
  import opened Paths

  const Wiki := "/kataras/iris/wiki"

  /** `s` holds no "../". */
  predicate NoParentRef(s: string) {
    forall i :: 0 <= i < |s| - 2 ==> s[i] != '.' || s[i + 1] != '.' || s[i + 2] != '/'
  }

  /** A text that holds no "../" is left alone by the removal of "../". */
  lemma {:induction false} NoParentRefs(s: string)
    requires NoParentRef(s)
    ensures StripParents(s) == s
    decreases |s|
  {
    if |s| >= 3 {
      assert s[..3] != "../" by { assert s[0] != '.' || s[1] != '.' || s[2] != '/'; }
      NoParentRefs(s[1..]);
    }
  }

  /** Removing ".md" from `x` + ".md" gives back `x`. */
  lemma TrimMarkdown(x: string)
    ensures TrimSuffix(x + MarkdownSuffix, MarkdownSuffix) == x
  {
    var y := x + MarkdownSuffix;
    assert y[|y| - 3..] == MarkdownSuffix;
    assert y[..|y| - 3] == x;
  }

  /** A page `d/b` (after "../" removal, `b` without slash) is written to `d/h-b`, `h` being `d` hyphenated. */
  lemma FlattenedPath(name: string, d: string, h: string, b: string)
    requires StripParents(name) == d + "/" + b
    requires d != [] && b != [] && HasNoSlash(b) && d[0] != '.'
    requires Hyphenate(d) == h
    requires b != ReadmeName && b != SummaryName
    ensures ResolvePath(name, false) == d + "/" + h + "-" + b
  {
    var n := d + "/" + b;
    assert d + "/" + h + "-" + b == d + "/" + (h + "-" + b);
    assert DirPart(n) == d && Base(n) == b by { JoinSplits(d, b); }
    assert !StartsWith(n, AssetsSource) by {
      assert n[0] == d[0] && AssetsSource[0] == '.';
      FirstByteDiffers(n, AssetsSource);
    }
    PageInDirectoryOutput(name);
  }

  /** ... and its link token is `h-b` without ".md". */
  lemma FlattenedPage(name: string, d: string, h: string, b: string)
    requires StripParents(name) == d + "/" + b
    requires d != [] && b != [] && HasNoSlash(b) && d[0] != '.' && d[0] != '_'
    requires Hyphenate(d) == h && HasNoSlash(h)
    requires b != ReadmeName && b != SummaryName
    ensures ResolvePath(name, false) == d + "/" + h + "-" + b
    ensures ResolveLink(name, false, Wiki) == TrimSuffix(h + "-" + b, MarkdownSuffix)
  {
    FlattenedPath(name, d, h, b);
    HyphenJoin(d, h, b);
    LinkFromDirectory(name, d, h + "-" + b);
  }

  /** `h` and `b` joined by '-' hold no slash, and `d/h-b` is `d` and that join. */
  lemma HyphenJoin(d: string, h: string, b: string)
    requires HasNoSlash(h) && HasNoSlash(b)
    ensures d + "/" + h + "-" + b == d + "/" + (h + "-" + b)
    ensures HasNoSlash(h + "-" + b)
  {
    var t := h + "-" + b;
    forall i | 0 <= i < |t|
      ensures t[i] != '/'
    {
      if i < |h| {
        assert t[i] == h[i];
      } else if i > |h| {
        assert t[i] == b[i - |h| - 1];
      }
    }
  }

  /** A page written to `d/t`, `d` outside the asset folder, links as `t`
      without ".md". */
  lemma LinkFromDirectory(name: string, d: string, t: string)
    requires ResolvePath(name, false) == d + "/" + t
    requires d != [] && d[0] != '_' && t != [] && HasNoSlash(t)
    ensures ResolveLink(name, false, Wiki) == TrimSuffix(t, MarkdownSuffix)
  {
    var out := d + "/" + t;
    JoinSplits(d, t);
    assert out[0] == d[0] && AssetsDir[0] == '_';
    FirstByteDiffers(out, AssetsDir);
    PageLinkFromOutput(name, out, Wiki);
  }

  /** A page `d/b` with `d` a single slash-free directory resolves to `d/d-b`. */
  lemma OneLevelPage(name: string, n: string, d: string, b: string)
    requires StripParents(name) == n && n == d + "/" + b
    requires d != [] && b != [] && HasNoSlash(d) && HasNoSlash(b) && d[0] != '.' && d[0] != '_'
    requires b != ReadmeName && b != SummaryName
    ensures ResolvePath(name, false) == d + "/" + d + "-" + b
    ensures ResolveLink(name, false, Wiki) == TrimSuffix(d + "-" + b, MarkdownSuffix)
  {
    ReplaceAllAbsent(d, "/", "-", 0);
    FlattenedPage(name, d, d, b);
  }

  lemma RelativeCase(stem: string)
    requires stem == "relative"
    ensures ResolvePath(stem + ".md", false) == stem + ".md"
    ensures ResolveLink(stem + ".md", false, Wiki) == stem
  {
    var name := stem + ".md";
    RootPageUnchanged(name);
    assert name[0] != AssetsDir[0];
    PageLinkFromOutput(name, name, Wiki);
    assert LastIndexOf(name, '/').None?;
    assert name[..|stem|] == stem;
  }

  /** "responses/json.md" gives "responses/responses-json.md" and the token "responses-json". */
  lemma ResponsesCase(d: string, stem: string)
    requires d == "responses" && stem == "json"
    ensures ResolvePath(d + "/" + stem + ".md", false) == d + "/" + d + "-" + stem + ".md"
    ensures ResolveLink(d + "/" + stem + ".md", false, Wiki) == d + "-" + stem
  {
    var b := stem + ".md";
    var name := d + "/" + b;
    StemRegrouped(d, stem, b);
    NoParentRefs(name);
    OneLevelPage(name, name, d, b);
    TrimMarkdown(d + "-" + stem);
  }

  /** Regrouping a directory, a stem and the Markdown suffix. */
  lemma StemRegrouped(d: string, stem: string, b: string)
    requires b == stem + ".md"
    ensures d + "/" + b == d + "/" + stem + ".md"
    ensures d + "/" + d + "-" + b == d + "/" + d + "-" + stem + ".md"
    ensures d + "-" + b == d + "-" + stem + ".md"
  {
  }


  /** "../" + `x` has the "../"-free form `x`. */
  lemma LeadingParentStripped(x: string)
    requires NoParentRef(x)
    ensures StripParents("../" + x) == x
  {
    var name := "../" + x;
    assert name[..3] == "../" && name[3..] == x;
    NoParentRefs(x);
  }

  predicate NoDot(s: string) {
    forall i :: 0 <= i < |s| ==> s[i] != '.'
  }

  /** A page file `stem`.md in a one-level directory `d` (once "../" is removed). */
  lemma DirectoryPage(name: string, d: string, stem: string)
    requires StripParents(name) == d + "/" + stem + ".md"
    requires d != [] && HasNoSlash(d) && d[0] != '_' && d[0] != '.'
    requires HasNoSlash(stem) && stem != "README" && stem != "SUMMARY"
    ensures ResolvePath(name, false) == d + "/" + d + "-" + stem + ".md"
    ensures ResolveLink(name, false, Wiki) == d + "-" + stem
  {
    var b := stem + ".md";
    assert d + "/" + d + "-" + b == d + "/" + d + "-" + stem + ".md";
    assert d + "-" + b == (d + "-" + stem) + MarkdownSuffix;
    assert StripParents(name) == d + "/" + b;
    PageFileName(stem, b);
    OneLevelPage(name, d + "/" + b, d, b);
    TrimMarkdown(d + "-" + stem);
  }

  /** `stem`.md, for a slash-free `stem` other than README and SUMMARY, is a
      slash-free file name other than README.md and SUMMARY.md. */
  lemma PageFileName(stem: string, b: string)
    requires b == stem + ".md"
    requires HasNoSlash(stem) && stem != "README" && stem != "SUMMARY"
    ensures b != [] && HasNoSlash(b) && b != ReadmeName && b != SummaryName
  {
    assert b[..|stem|] == stem;
    assert ReadmeName[..6] == "README" && SummaryName[..7] == "SUMMARY";
  }

  /** Without dots in `d` and `stem`, no "../" is found in `d`/`stem`.md, with or without a leading "../". */
  lemma DotFreeNames(d: string, stem: string)
    requires NoDot(d) && NoDot(stem)
    ensures StripParents(d + "/" + stem + ".md") == d + "/" + stem + ".md"
    ensures StripParents("../" + d + "/" + stem + ".md") == d + "/" + stem + ".md"
  {
    var n := d + "/" + stem + ".md";
    assert "../" + d + "/" + stem + ".md" == "../" + n;
    assert NoParentRef(n) by {
      assert forall i :: 0 <= i < |d| ==> n[i] == d[i];
      assert forall i :: 0 <= i < |stem| ==> n[|d| + 1 + i] == stem[i];
      assert n[|d|] == '/' && n[|n| - 3..] == ".md";
    }
    NoParentRefs(n);
    LeadingParentStripped(n);
  }

  /** "../" + `d` + "/" + `stem` + ".md" is flattened to `d`/`d`-`stem`.md. */
  lemma PageUnderParent(d: string, stem: string)
    requires d != [] && HasNoSlash(d) && d[0] != '_' && NoDot(d)
    requires HasNoSlash(stem) && NoDot(stem) && stem != "README" && stem != "SUMMARY"
    ensures ResolvePath("../" + d + "/" + stem + ".md", false) == d + "/" + d + "-" + stem + ".md"
    ensures ResolveLink("../" + d + "/" + stem + ".md", false, Wiki) == d + "-" + stem
  {
    DotFreeNames(d, stem);
    DirectoryPage("../" + d + "/" + stem + ".md", d, stem);
  }

  /** `d`/`stem`.md, without dots, is flattened to `d`/`d`-`stem`.md. */
  lemma PageInDirectory(d: string, stem: string)
    requires d != [] && HasNoSlash(d) && d[0] != '_' && NoDot(d)
    requires HasNoSlash(stem) && NoDot(stem) && stem != "README" && stem != "SUMMARY"
    ensures ResolvePath(d + "/" + stem + ".md", false) == d + "/" + d + "-" + stem + ".md"
    ensures ResolveLink(d + "/" + stem + ".md", false, Wiki) == d + "-" + stem
  {
    DotFreeNames(d, stem);
    DirectoryPage(d + "/" + stem + ".md", d, stem);
  }

  /** Two slash-free, dot-free names joined by a hyphen. */
  lemma HyphenPair(a: string, b: string)
    requires a != [] && HasNoSlash(a) && NoDot(a) && HasNoSlash(b) && NoDot(b)
    ensures var ab := a + "-" + b; HasNoSlash(ab) && NoDot(ab) && ab[0] == a[0]
  {
    var ab := a + "-" + b;
    assert forall i :: 0 <= i < |a| ==> ab[i] == a[i];
    assert forall i :: 0 <= i < |b| ==> ab[|a| + 1 + i] == b[i];
  }

  /** Lower-case letters only. */
  predicate Plain(s: string) {
    s != [] && forall i :: 0 <= i < |s| ==> 'a' <= s[i] <= 'z'
  }

  /** A lower-case word is a non-empty name without slash, dot or leading '_'. */
  lemma PlainName(a: string)
    requires Plain(a)
    ensures a != [] && HasNoSlash(a) && NoDot(a) && a[0] != '_'
  {
  }

  /** Flattening is lossy: "a-b/c.md" and "a/b-c.md" share the wiki page name "a-b-c". */
  lemma FlatteningCanCollide(a: string, b: string, c: string)
    requires Plain(a) && Plain(b) && Plain(c)
    ensures ResolveLink(a + "-" + b + "/" + c + ".md", false, Wiki) == a + "-" + b + "-" + c
    ensures ResolveLink(a + "/" + b + "-" + c + ".md", false, Wiki) == a + "-" + b + "-" + c
  {
    var bc := b + "-" + c;
    assert a + "/" + bc + ".md" == a + "/" + b + "-" + c + ".md";
    assert a + "-" + bc == a + "-" + b + "-" + c;
    PlainName(a);
    PlainName(b);
    PlainName(c);
    HyphenPair(a, b);
    HyphenPair(b, c);
    assert "README"[0] == 'R' && "SUMMARY"[0] == 'S';
    PageInDirectory(a + "-" + b, c);
    PageInDirectory(a, bc);
  }

  /** The two test rows with a parent reference: "../view/view.md" gives
      "view/view-view.md" and "view-view"; "../dependency-injection/inputs.md"
      gives "dependency-injection/dependency-injection-inputs.md" and
      "dependency-injection-inputs". */
  lemma ParentCases(d: string, stem: string)
    requires (d == "view" && stem == "view") || (d == "dependency-injection" && stem == "inputs")
    ensures ResolvePath("../" + d + "/" + stem + ".md", false) == d + "/" + d + "-" + stem + ".md"
    ensures ResolveLink("../" + d + "/" + stem + ".md", false, Wiki) == d + "-" + stem
  {
    PageUnderParent(d, stem);
  }

  /** A two-level directory of slash-free, dot-free names: no dots, and hyphenated to `d1`-`d2`. */
  lemma TwoLevelDirectory(d1: string, d2: string)
    requires d1 != [] && d2 != [] && HasNoSlash(d1) && NoDot(d1) && HasNoSlash(d2) && NoDot(d2)
    ensures var d := d1 + "/" + d2;
      NoDot(d) && d[0] == d1[0] && Hyphenate(d) == d1 + "-" + d2 && HasNoSlash(d1 + "-" + d2)
  {
    var d := d1 + "/" + d2;
    assert NoDot(d) by {
      assert forall i :: 0 <= i < |d1| ==> d[i] == d1[i];
      assert forall i :: 0 <= i < |d2| ==> d[|d1| + 1 + i] == d2[i];
    }
    HyphenPair(d1, d2);
    assert Hyphenate(d) == d1 + "-" + d2 by {
      assert d == d1 + ['/'] + d2;
      ReplaceAllAtFirst(d1, d2, '/', "-");
      ReplaceAllAbsent(d2, "/", "-", 0);
    }
  }

  /** `d1`/`d2`/`stem`.md, without dots, is flattened to `d1`/`d2`/`d1`-`d2`-`stem`.md. */
  lemma NestedPage(d1: string, d2: string, stem: string)
    requires d1 != [] && HasNoSlash(d1) && d1[0] != '_' && NoDot(d1)
    requires d2 != [] && HasNoSlash(d2) && NoDot(d2)
    requires HasNoSlash(stem) && NoDot(stem) && stem != "README" && stem != "SUMMARY"
    ensures ResolvePath(d1 + "/" + d2 + "/" + stem + ".md", false) ==
      d1 + "/" + d2 + "/" + d1 + "-" + d2 + "-" + stem + ".md"
    ensures ResolveLink(d1 + "/" + d2 + "/" + stem + ".md", false, Wiki) == d1 + "-" + d2 + "-" + stem
  {
    var d, h, b := d1 + "/" + d2, d1 + "-" + d2, stem + ".md";
    var name := d1 + "/" + d2 + "/" + stem + ".md";
    assert name == d + "/" + stem + ".md" == d + "/" + b;
    assert d + "/" + h + "-" + b == d1 + "/" + d2 + "/" + d1 + "-" + d2 + "-" + stem + ".md";
    assert h + "-" + b == (d1 + "-" + d2 + "-" + stem) + MarkdownSuffix;
    TwoLevelDirectory(d1, d2);
    PageFileName(stem, b);
    DotFreeNames(d, stem);
    FlattenedPage(name, d, h, b);
    TrimMarkdown(d1 + "-" + d2 + "-" + stem);
  }

  /** "responses/sub/other.md" gives "responses/sub/responses-sub-other.md" and "responses-sub-other". */
  lemma NestedCase(d1: string, d2: string, stem: string)
    requires d1 == "responses" && d2 == "sub" && stem == "other"
    ensures ResolvePath(d1 + "/" + d2 + "/" + stem + ".md", false) ==
      d1 + "/" + d2 + "/" + d1 + "-" + d2 + "-" + stem + ".md"
    ensures ResolveLink(d1 + "/" + d2 + "/" + stem + ".md", false, Wiki) == d1 + "-" + d2 + "-" + stem
  {
    NestedPage(d1, d2, stem);
  }
  /** The asset folder followed by "/" and a slash-free file name holds no "../". */
  lemma AssetPathNoParentRef(b: string)
    requires HasNoSlash(b)
    ensures NoParentRef(AssetsSource + "/" + b)
  {
    var n := AssetsSource + "/" + b;
    assert forall i :: 0 <= i < |AssetsSource| && i != 8 ==> AssetsSource[i] != '/';
    assert forall i :: 0 <= i < |AssetsSource| ==> n[i] == AssetsSource[i];
    assert forall i :: 0 <= i < |b| ==> n[|AssetsSource| + 1 + i] == b[i];
    assert n[6] == 'o' && n[13] == 't';
  }

  /** "../" + the asset folder + "/" + `b` loses only its leading "../". */
  lemma AssetUnderParentStripped(b: string)
    requires HasNoSlash(b)
    ensures StripParents("../" + AssetsSource + "/" + b) == AssetsSource + "/" + b
  {
    var n := AssetsSource + "/" + b;
    assert "../" + AssetsSource + "/" + b == "../" + n;
    AssetPathNoParentRef(b);
    LeadingParentStripped(n);
  }

  /** "/" + a slash-free `b` holds no further asset folder name, whose ninth byte is '/'. */
  lemma NoAssetFolderAfterSlash(b: string)
    requires HasNoSlash(b)
    ensures ReplaceAll("/" + b, AssetsSource, AssetsDir) == "/" + b
  {
    var s := "/" + b;
    assert s[1..] == b;
    assert AssetsSource[8] == '/';
    ReplaceAllAbsent(b, AssetsSource, AssetsDir, 8);
    if |s| >= |AssetsSource| {
      assert s[..|AssetsSource|] != AssetsSource by { assert s[0] != AssetsSource[0]; }
    }
  }

  /** The asset folder + "/" + `b` has base `b`, and what follows the folder name is kept. */
  lemma AssetPathParts(b: string)
    requires b != [] && HasNoSlash(b)
    ensures var n := AssetsSource + "/" + b;
      Base(n) == b && StartsWith(n, AssetsSource) &&
      ReplaceAll(n[|AssetsSource|..], AssetsSource, AssetsDir) == "/" + b
  {
    var n := AssetsSource + "/" + b;
    assert Base(n) == b by { JoinSplits(AssetsSource, b); }
    assert StartsWith(n, AssetsSource) by { assert n[..|AssetsSource|] == AssetsSource; }
    assert n[|AssetsSource|..] == "/" + b;
    NoAssetFolderAfterSlash(b);
  }

  /** "../" + the asset folder + "/" + `b` is written to "_assets/" + `b`. */
  lemma AssetUnderParent(b: string)
    requires b != [] && HasNoSlash(b)
    requires b != ReadmeName && b != SummaryName
    ensures ResolvePath("../" + AssetsSource + "/" + b, false) == AssetsDir + "/" + b
  {
    AssetUnderParentStripped(b);
    AssetPathParts(b);
    AssetsRelocated("../" + AssetsSource + "/" + b);
  }

  /** "../.gitbook/assets/image.png" gives "_assets/image.png", linked absolutely under the wiki. */
  lemma AssetCase(b: string)
    requires b == "image.png"
    ensures ResolvePath("../" + AssetsSource + "/" + b, false) == AssetsDir + "/" + b
    ensures ResolveLink("../" + AssetsSource + "/" + b, false, Wiki) == Wiki + "/" + AssetsDir + "/" + b
  {
    ImageName(b);
    AssetUnderParent(b);
    AssetLinkedAbsolutely("../" + AssetsSource + "/" + b, b);
  }

  /** The file name "image.png" meets the conditions of AssetUnderParent. */
  lemma ImageName(b: string)
    requires b == "image.png"
    ensures b != [] && HasNoSlash(b)
    ensures b != ReadmeName && b != SummaryName
  {
  }

  /** A name that resolves into the asset folder is linked under the wiki repository. */
  lemma AssetLinkedAbsolutely(name: string, b: string)
    requires ResolvePath(name, false) == AssetsDir + "/" + b
    ensures ResolveLink(name, false, Wiki) == Wiki + "/" + AssetsDir + "/" + b
  {
    AssetOutput(b);
  }

  /** An output path in the asset folder starts with the folder's name. */
  lemma AssetOutput(b: string)
    ensures StartsWith(AssetsDir + "/" + b, AssetsDir)
    ensures Wiki + "/" + (AssetsDir + "/" + b) == Wiki + "/" + AssetsDir + "/" + b
  {
    assert (AssetsDir + "/" + b)[..|AssetsDir|] == AssetsDir;
  }
}
