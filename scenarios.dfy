/**
 * Concrete pages from the repository's test file (test/content.spec.ts),
 * with the anchor `findMarkdownAnchor` picks for each. Each page is bound
 * to parameters so that the verifier reasons through the general lemmas
 * instead of evaluating the selection on literals.
 */
module Scenarios {
  import opened Wrappers
  import opened Strings
  import opened Content

  const BAZ: Anchor := Anchor("https://example.com/baz.md", Some("/baz.md"))
  const BAR: Anchor := Anchor("https://example.com/bar.md", Some("/bar.md"))
  const INDEX: Anchor := Anchor("https://example.com/index.md", Some("/index.md"))
  const README: Anchor := Anchor("https://example.com/readme.md", Some("/readme.md"))

  lemma HtmlFilename()
    ensures CurrentFilename("/foo/bar.html") == "bar"
  {
    assert "/foo/bar.html" == "/foo" + "/" + "bar.html";
    LastSegmentAfterSlash("/foo", "bar.html");
    StripHtmlAppended("bar");
  }

  lemma BareFilename()
    ensures CurrentFilename("/foo/bar") == "bar"
  {
    assert "/foo/bar" == "/foo" + "/" + "bar";
    LastSegmentAfterSlash("/foo", "bar");
  }

  lemma BazFilename()
    ensures AnchorFilename("/baz.md") == "baz"
  {
    assert "/baz.md" == "" + "/" + "baz.md";
    LastSegmentAfterSlash("", "baz.md");
    StripMdAppended("baz");
  }

  lemma BarFilename()
    ensures AnchorFilename("/bar.md") == "bar"
  {
    assert "/bar.md" == "" + "/" + "bar.md";
    LastSegmentAfterSlash("", "bar.md");
    StripMdAppended("bar");
  }

  lemma MdxFilename()
    ensures AnchorFilename("/bar.mdx") == "bar"
  {
    assert "/bar.mdx" == "" + "/" + "bar.mdx";
    LastSegmentAfterSlash("", "bar.mdx");
    StripMdxAppended("bar");
  }

  lemma NotOnGitHub(h: string)
    requires h == "example.com"
    ensures !Contains(h, GITHUB_HOST)
  {
    assert h[0] != GITHUB_HOST[0] && h[1] != GITHUB_HOST[0];
    assert !StartsWith(h, GITHUB_HOST) by { assert h[..10][0] == h[0]; }
    assert !StartsWith(h[1..], GITHUB_HOST) by { assert h[1..][..10][0] == h[1]; }
    if Contains(h[2..], GITHUB_HOST) {
      ContainsFits(h[2..], GITHUB_HOST);
    }
  }

  lemma FirstIsCandidate(anchors: seq<Anchor>)
    requires anchors == [BAR, INDEX] || anchors == [BAZ, INDEX] || anchors == [INDEX, README]
    ensures |anchors| > 0 && IsCandidate(anchors[0])
  {
  }

  lemma BarIsFirstNamedBar(anchors: seq<Anchor>)
    requires anchors == [BAZ, BAR]
    ensures FirstInDocument(anchors, 1, FilenameIs("bar"))
  {
    assert "/bar.md" == "/bar" + ".md";
    MarkdownExtensionsQualify("/bar");
    BazFilename();
    BarFilename();
    assert "baz" != "bar" by { assert "baz"[2] != "bar"[2]; }
    assert !Meets(anchors[0], FilenameIs("bar"));
  }

  /** On `/foo/bar.html` (or `/foo/bar`), `bar.md` wins although `baz.md` comes first. */
  lemma FilenameMatchScenario(anchors: seq<Anchor>, loc: Location)
    requires anchors == [BAZ, BAR]
    requires loc.pathname == "/foo/bar.html" || loc.pathname == "/foo/bar"
    ensures SelectAnchor(anchors, loc) == Some(BAR)
  {
    HtmlFilename();
    BareFilename();
    BarIsFirstNamedBar(anchors);
    FilenamePriority(anchors, loc, 1);
  }

  /**
   * A path ending in `/` has an empty filename, so off github.com the first
   * candidate wins: `/foo/bar/` picks `bar.md` from [bar.md, index.md] and
   * `baz.md` from [baz.md, index.md].
   */
  lemma TrailingSlashScenario(anchors: seq<Anchor>, loc: Location)
    requires anchors == [BAR, INDEX] || anchors == [BAZ, INDEX]
    requires loc.pathname == "/foo/bar/"
    requires loc.hostname == "example.com"
    ensures SelectAnchor(anchors, loc) == Some(anchors[0])
  {
    TrailingSlashHasNoFilename(loc.pathname);
    NotOnGitHub(loc.hostname);
    FirstIsCandidate(anchors);
    DocumentOrderFallback(anchors, loc, 0);
  }

  /** The root path `/` has an empty filename too: [index.md, readme.md] gives `index.md`. */
  lemma RootPathScenario(anchors: seq<Anchor>, loc: Location)
    requires anchors == [INDEX, README]
    requires loc.pathname == "/"
    requires loc.hostname == "example.com"
    ensures SelectAnchor(anchors, loc) == Some(INDEX)
  {
    TrailingSlashHasNoFilename(loc.pathname);
    NotOnGitHub(loc.hostname);
    FirstIsCandidate(anchors);
    DocumentOrderFallback(anchors, loc, 0);
  }

  /** An `.mdx` anchor is a candidate and matches by its stripped name. */
  lemma MdxScenario(anchors: seq<Anchor>, loc: Location)
    requires anchors == [Anchor("https://example.com/bar.mdx", Some("/bar.mdx"))]
    requires loc.pathname == "/foo/bar.html"
    ensures SelectAnchor(anchors, loc) == Some(anchors[0])
  {
    assert "/bar.mdx" == "/bar" + ".mdx";
    MarkdownExtensionsQualify("/bar");
    HtmlFilename();
    MdxFilename();
    FilenamePriority(anchors, loc, 0);
  }

  /** Only unparseable or non-Markdown anchors: nothing is selected. */
  lemma NoCandidateScenario(anchors: seq<Anchor>, loc: Location)
    requires anchors == [Anchor("https://example.com/doc.pdf", Some("/doc.pdf")),
                         Anchor("https://example.com/doc.html", Some("/doc.html")),
                         Anchor("not a url", None)]
    ensures SelectAnchor(anchors, loc) == None
  {
    NotMarkdownByLastChar(anchors[0].pathname.value);
    NotMarkdownByLastChar(anchors[1].pathname.value);
    assert !HasCandidate(anchors) by {
      forall i | 0 <= i < |anchors| ensures !IsCandidate(anchors[i]) {
      }
    }
    SelectNoneIff(anchors, loc);
  }
}
