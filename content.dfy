/**
 * The content script (entrypoints/content.ts): it classifies the current page
 * as having an explicit Markdown alternate link, a likely Markdown source
 * among its anchors, or neither, and sends exactly one tagged message saying
 * which. The DOM and `window.location` are inputs: the href of the first
 * `<link rel="alternate" type="text/markdown">`, the page's `<a href>`
 * elements in document order, and the location's pathname and hostname.
 */
module Content {
  import opened Wrappers
  import opened Strings
  import opened Protocol

  const GITHUB_HOST: string := "github.com"

  /**
   * An `<a href>` element: its `href`, and the `pathname` of `new URL(href)`,
   * or `None` when that constructor throws.
   */
  datatype Anchor = Anchor(href: string, pathname: Option<string>)

  /** The two parts of `window.location` the resolver reads. */
  datatype Location = Location(pathname: string, hostname: string)

  /** What the content script reads from the page on one check. */
  datatype Page = Page(alternateHref: Option<string>, anchors: seq<Anchor>, location: Location)

  // ---------------------------------------------------------------------------
  // Raw-URL rewriting
  // ---------------------------------------------------------------------------

  /**
   * `convertToGitHubRawUrl`: on a URL that mentions github.com and has no
   * `/raw/` yet, replace every `/blob/`, `/edit/` and `/tree/` by `/raw/`.
   * Both tests are plain substring tests on the whole URL string.
   */
  function ConvertToGitHubRawUrl(url: string): (r: string)
    ensures |r| <= |url|
  {
    if Contains(url, GITHUB_HOST) && !Contains(url, RAW_SEGMENT) then ReplaceRenderSegments(url)
    else url
  }

  /**
   * The URL comes back unchanged exactly when it lacks github.com, already
   * has a `/raw/`, or has nothing to rewrite.
   */
  lemma ConvertUnchangedIff(url: string)
    ensures ConvertToGitHubRawUrl(url) == url <==>
      !Contains(url, GITHUB_HOST) || Contains(url, RAW_SEGMENT) || !HasRenderSegment(url)
  {
    ReplaceUnchangedIff(url);
  }

  /** A URL that was rewritten got strictly shorter and now holds a `/raw/`. */
  lemma ConvertRewritten(url: string)
    requires ConvertToGitHubRawUrl(url) != url
    ensures |ConvertToGitHubRawUrl(url)| < |url|
    ensures Contains(ConvertToGitHubRawUrl(url), RAW_SEGMENT)
  {
    ReplaceUnchangedIff(url);
    ReplaceWithMatch(url);
  }

  /**
   * A github.com URL without `/raw/` whose only match is the segment `w`
   * has exactly that segment turned into `/raw/`, as in
   * `https://github.com/user/repo/blob/main/file.md`.
   */
  lemma ConvertOneSegment(p: string, w: string, q: string)
    requires IsRenderSegment(w)
    requires Contains(p + (w + q), GITHUB_HOST) && !Contains(p + (w + q), RAW_SEGMENT)
    requires forall i :: 0 <= i < |p| ==> !RenderSegmentAt(p + (w + q), i)
    requires !HasRenderSegment(q)
    ensures ConvertToGitHubRawUrl(p + (w + q)) == p + (RAW_SEGMENT + q)
  {
    ReplaceOneSegment(p, w, q);
  }

  /** Rewriting an already rewritten URL changes nothing. */
  lemma ConvertIdempotent(url: string)
    ensures ConvertToGitHubRawUrl(ConvertToGitHubRawUrl(url)) == ConvertToGitHubRawUrl(url)
  {
    if ConvertToGitHubRawUrl(url) != url {
      ConvertRewritten(url);
    }
  }

  // ---------------------------------------------------------------------------
  // Candidate anchors
  // ---------------------------------------------------------------------------

  predicate IsMarkdownPath(path: string) {
    EndsWith(path, ".md") || EndsWith(path, ".mdx")
  }

  /** Appending `.md` or `.mdx` to any path makes it a Markdown path. */
  lemma MarkdownExtensionsQualify(stem: string)
    ensures IsMarkdownPath(stem + ".md") && IsMarkdownPath(stem + ".mdx")
  {
    var md, mdx := stem + ".md", stem + ".mdx";
    assert md[|md| - 3..] == ".md";
    assert mdx[|mdx| - 4..] == ".mdx";
  }

  /** A path whose last character is neither `d` nor `x` is not a Markdown path. */
  lemma NotMarkdownByLastChar(path: string)
    requires |path| > 0 && path[|path| - 1] != 'd' && path[|path| - 1] != 'x'
    ensures !IsMarkdownPath(path)
  {
  }

  /** A parseable anchor whose pathname ends in `.md` or `.mdx`. */
  predicate IsCandidate(a: Anchor) {
    a.pathname.Some? && IsMarkdownPath(a.pathname.value)
  }

  predicate HasCandidate(anchors: seq<Anchor>) {
    exists i :: 0 <= i < |anchors| && IsCandidate(anchors[i])
  }

  /** The candidate anchors (`allMdAnchors`), in document order. */
  function Candidates(anchors: seq<Anchor>): (c: seq<Anchor>)
    ensures |c| <= |anchors|
  {
    if |anchors| == 0 then []
    else (if IsCandidate(anchors[0]) then [anchors[0]] else []) + Candidates(anchors[1..])
  }

  /** Every candidate is one of the anchors, and a candidate. */
  lemma {:induction false} CandidatesSound(anchors: seq<Anchor>)
    ensures forall x :: x in Candidates(anchors) ==> x in anchors && IsCandidate(x)
    decreases |anchors|
  {
    if |anchors| > 0 {
      CandidatesSound(anchors[1..]);
    }
  }

  /** Every anchor that is a candidate is among the candidates. */
  lemma {:induction false} CandidatesComplete(anchors: seq<Anchor>)
    ensures forall i :: 0 <= i < |anchors| && IsCandidate(anchors[i]) ==> anchors[i] in Candidates(anchors)
    decreases |anchors|
  {
    if |anchors| > 0 {
      CandidatesComplete(anchors[1..]);
      assert forall i :: 1 <= i < |anchors| ==> anchors[i] == anchors[1..][i - 1];
    }
  }

  /**
   * Selection keeps document order: the candidates of a concatenation are
   * the candidates of each part, one after the other.
   */
  lemma {:induction false} CandidatesAppend(a: seq<Anchor>, b: seq<Anchor>)
    ensures Candidates(a + b) == Candidates(a) + Candidates(b)
    decreases |a|
  {
    if |a| == 0 {
      assert a + b == b;
    } else {
      var head := if IsCandidate(a[0]) then [a[0]] else [];
      assert (a + b)[0] == a[0];
      assert (a + b)[1..] == a[1..] + b;
      calc {
        Candidates(a + b);
        head + Candidates(a[1..] + b);
        { CandidatesAppend(a[1..], b); }
        head + (Candidates(a[1..]) + Candidates(b));
        (head + Candidates(a[1..])) + Candidates(b);
        Candidates(a) + Candidates(b);
      }
    }
  }

  lemma CandidatesCons(x: Anchor, rest: seq<Anchor>)
    requires IsCandidate(x)
    ensures Candidates([x] + rest) == [x] + Candidates(rest)
  {
    assert ([x] + rest)[0] == x;
    assert ([x] + rest)[1..] == rest;
  }

  lemma CandidatesSplit(anchors: seq<Anchor>, i: int)
    requires 0 <= i < |anchors| && IsCandidate(anchors[i])
    ensures Candidates(anchors) == Candidates(anchors[..i]) + ([anchors[i]] + Candidates(anchors[i + 1..]))
  {
    var tail := [anchors[i]] + anchors[i + 1..];
    assert anchors == anchors[..i] + tail;
    CandidatesAppend(anchors[..i], tail);
    CandidatesCons(anchors[i], anchors[i + 1..]);
  }

  // ---------------------------------------------------------------------------
  // Selection among the candidates
  // ---------------------------------------------------------------------------

  /** The current filename: last path segment minus one `.html` or `.htm`. */
  function CurrentFilename(pathname: string): (r: string)
    ensures '/' !in r
  {
    StripHtmlExtension(LastSegment(pathname))
  }

  /** An anchor's filename: last path segment minus one `.mdx` or `.md`. */
  function AnchorFilename(path: string): (r: string)
    ensures '/' !in r
  {
    StripMarkdownExtension(LastSegment(path))
  }

  /** The two preferences the resolver scans the candidates for. */
  datatype Criterion = FilenameIs(name: string) | RawHref

  predicate Meets(a: Anchor, c: Criterion) {
    match c
    case FilenameIs(name) => a.pathname.Some? && AnchorFilename(a.pathname.value) == name
    case RawHref => Contains(a.href, RAW_SEGMENT)
  }

  /** Index of the first element meeting `c`, or `|cands|` when none does. */
  function FirstMeeting(cands: seq<Anchor>, c: Criterion): (k: nat)
    ensures k <= |cands|
    ensures k < |cands| ==> Meets(cands[k], c)
  {
    if |cands| == 0 then 0
    else if Meets(cands[0], c) then 0
    else
      var k := FirstMeeting(cands[1..], c);
      assert k < |cands| - 1 ==> cands[1..][k] == cands[k + 1];
      1 + k
  }

  /** No element before the returned index meets `c`. */
  lemma {:induction false} FirstMeetingSkips(cands: seq<Anchor>, c: Criterion)
    ensures forall j :: 0 <= j < FirstMeeting(cands, c) ==> !Meets(cands[j], c)
    decreases |cands|
  {
    if |cands| > 0 && !Meets(cands[0], c) {
      FirstMeetingSkips(cands[1..], c);
      forall j | 1 <= j < FirstMeeting(cands, c) ensures !Meets(cands[j], c) {
        assert cands[j] == cands[1..][j - 1];
      }
    }
  }

  /**
   * `FirstMeeting` is the only index with its two properties: the element
   * there meets `c` (or it is the length), and no element before it does.
   */
  lemma FirstMeetingIs(cands: seq<Anchor>, c: Criterion, k: int)
    requires 0 <= k <= |cands|
    requires k < |cands| ==> Meets(cands[k], c)
    requires forall j :: 0 <= j < k ==> !Meets(cands[j], c)
    ensures FirstMeeting(cands, c) == k
  {
    FirstMeetingSkips(cands, c);
  }

  /**
   * The anchor `findMarkdownAnchor` returns: none without candidates; else
   * the first candidate whose filename is the (non-empty) current filename;
   * else, on a hostname mentioning github.com, the first candidate whose href
   * has `/raw/`; else the first candidate.
   */
  function SelectAnchor(anchors: seq<Anchor>, loc: Location): (r: Option<Anchor>) {
    var cands := Candidates(anchors);
    if |cands| == 0 then None
    else
      var name := CurrentFilename(loc.pathname);
      var byName := FirstMeeting(cands, FilenameIs(name));
      if name != "" && byName < |cands| then Some(cands[byName])
      else
        var byRaw := FirstMeeting(cands, RawHref);
        if Contains(loc.hostname, GITHUB_HOST) && byRaw < |cands| then Some(cands[byRaw])
        else Some(cands[0])
  }

  /** Anchor `i` is, in document order, the first candidate meeting `c`. */
  predicate FirstInDocument(anchors: seq<Anchor>, i: int, c: Criterion) {
    0 <= i < |anchors| && IsCandidate(anchors[i]) && Meets(anchors[i], c) &&
    forall j :: 0 <= j < i ==> !(IsCandidate(anchors[j]) && Meets(anchors[j], c))
  }

  /** No candidate of the page meets `c`. */
  predicate NoneInDocument(anchors: seq<Anchor>, c: Criterion) {
    forall j :: 0 <= j < |anchors| && IsCandidate(anchors[j]) ==> !Meets(anchors[j], c)
  }

  /** Scanning past a prefix in which nothing meets `c`. */
  lemma {:induction false} FirstMeetingAfter(a: seq<Anchor>, b: seq<Anchor>, c: Criterion)
    requires FirstMeeting(a, c) == |a|
    ensures FirstMeeting(a + b, c) == |a| + FirstMeeting(b, c)
    decreases |a|
  {
    if |a| == 0 {
      assert a + b == b;
    } else {
      assert (a + b)[0] == a[0];
      assert (a + b)[1..] == a[1..] + b;
      FirstMeetingAfter(a[1..], b, c);
    }
  }

  /** Before the first candidate meeting `c`, no candidate meets it. */
  lemma BeforeFirstInDocument(anchors: seq<Anchor>, i: int, c: Criterion)
    requires FirstInDocument(anchors, i, c)
    ensures NoneInDocument(anchors[..i], c)
  {
    var pre := anchors[..i];
    forall j | 0 <= j < |pre| && IsCandidate(pre[j]) ensures !Meets(pre[j], c) {
      assert pre[j] == anchors[j];
    }
  }

  lemma FirstMeetingInDocument(anchors: seq<Anchor>, i: int, c: Criterion)
    requires FirstInDocument(anchors, i, c)
    ensures FirstMeeting(Candidates(anchors), c) < |Candidates(anchors)|
    ensures Candidates(anchors)[FirstMeeting(Candidates(anchors), c)] == anchors[i]
  {
    var cp := Candidates(anchors[..i]);
    var rest := [anchors[i]] + Candidates(anchors[i + 1..]);
    assert FirstMeeting(cp, c) == |cp| by {
      BeforeFirstInDocument(anchors, i, c);
      NoneMeetingInDocument(anchors[..i], c);
    }
    assert Candidates(anchors) == cp + rest by {
      CandidatesSplit(anchors, i);
    }
    assert FirstMeeting(cp + rest, c) == |cp| + FirstMeeting(rest, c) by {
      FirstMeetingAfter(cp, rest, c);
    }
    assert FirstMeeting(rest, c) == 0;
    assert (cp + rest)[|cp|] == anchors[i];
  }

  lemma NoneMeetingInDocument(anchors: seq<Anchor>, c: Criterion)
    requires NoneInDocument(anchors, c)
    ensures FirstMeeting(Candidates(anchors), c) == |Candidates(anchors)|
  {
    var cands := Candidates(anchors);
    CandidatesSound(anchors);
    forall j | 0 <= j < |cands| ensures !Meets(cands[j], c) {
      assert cands[j] in anchors;
    }
    FirstMeetingIs(cands, c, |cands|);
  }

  lemma FirstCandidateInDocument(anchors: seq<Anchor>, i: int)
    requires 0 <= i < |anchors| && IsCandidate(anchors[i])
    requires forall j :: 0 <= j < i ==> !IsCandidate(anchors[j])
    ensures |Candidates(anchors)| > 0 && Candidates(anchors)[0] == anchors[i]
  {
    CandidatesSplit(anchors, i);
    NoCandidates(anchors[..i]);
  }

  lemma {:induction false} NoCandidates(anchors: seq<Anchor>)
    requires forall j :: 0 <= j < |anchors| ==> !IsCandidate(anchors[j])
    ensures Candidates(anchors) == []
    decreases |anchors|
  {
    if |anchors| > 0 {
      assert forall j :: 0 <= j < |anchors| - 1 ==> anchors[1..][j] == anchors[j + 1];
      NoCandidates(anchors[1..]);
    }
  }

  /**
   * No anchor is returned exactly when no anchor parses to a pathname ending
   * in `.md` or `.mdx`; an anchor that does not parse is only skipped.
   */
  lemma SelectNoneIff(anchors: seq<Anchor>, loc: Location)
    ensures SelectAnchor(anchors, loc).None? <==> !HasCandidate(anchors)
  {
    var cands := Candidates(anchors);
    CandidatesSound(anchors);
    CandidatesComplete(anchors);
    if |cands| > 0 {
      assert cands[0] in anchors;
    }
  }

  /** A returned anchor is one of the page's candidate anchors. */
  lemma SelectIsCandidate(anchors: seq<Anchor>, loc: Location)
    requires SelectAnchor(anchors, loc).Some?
    ensures SelectAnchor(anchors, loc).value in anchors
    ensures IsCandidate(SelectAnchor(anchors, loc).value)
  {
    CandidatesSound(anchors);
  }

  /**
   * Filename priority: when the current filename is non-empty, the first
   * candidate in document order with that filename wins, wherever it stands.
   */
  lemma FilenamePriority(anchors: seq<Anchor>, loc: Location, i: int)
    requires CurrentFilename(loc.pathname) != ""
    requires FirstInDocument(anchors, i, FilenameIs(CurrentFilename(loc.pathname)))
    ensures SelectAnchor(anchors, loc) == Some(anchors[i])
  {
    FirstMeetingInDocument(anchors, i, FilenameIs(CurrentFilename(loc.pathname)));
  }

  /** Without a filename match, on github.com the first `/raw/` candidate wins. */
  lemma GitHubRawFallback(anchors: seq<Anchor>, loc: Location, i: int)
    requires CurrentFilename(loc.pathname) == "" ||
             NoneInDocument(anchors, FilenameIs(CurrentFilename(loc.pathname)))
    requires Contains(loc.hostname, GITHUB_HOST)
    requires FirstInDocument(anchors, i, RawHref)
    ensures SelectAnchor(anchors, loc) == Some(anchors[i])
  {
    if CurrentFilename(loc.pathname) != "" {
      NoneMeetingInDocument(anchors, FilenameIs(CurrentFilename(loc.pathname)));
    }
    FirstMeetingInDocument(anchors, i, RawHref);
  }

  /** Otherwise the first candidate in document order wins. */
  lemma DocumentOrderFallback(anchors: seq<Anchor>, loc: Location, i: int)
    requires CurrentFilename(loc.pathname) == "" ||
             NoneInDocument(anchors, FilenameIs(CurrentFilename(loc.pathname)))
    requires !Contains(loc.hostname, GITHUB_HOST) || NoneInDocument(anchors, RawHref)
    requires 0 <= i < |anchors| && IsCandidate(anchors[i])
    requires forall j :: 0 <= j < i ==> !IsCandidate(anchors[j])
    ensures SelectAnchor(anchors, loc) == Some(anchors[i])
  {
    if CurrentFilename(loc.pathname) != "" {
      NoneMeetingInDocument(anchors, FilenameIs(CurrentFilename(loc.pathname)));
    }
    if Contains(loc.hostname, GITHUB_HOST) {
      NoneMeetingInDocument(anchors, RawHref);
    }
    FirstCandidateInDocument(anchors, i);
  }

  /** A path ending in `/` (the root path among them) has an empty filename. */
  lemma TrailingSlashHasNoFilename(pathname: string)
    requires EndsWith(pathname, "/")
    ensures CurrentFilename(pathname) == ""
  {
  }

  /** The first loop of `findMarkdownAnchor`: collect the candidates. */
  method CollectMarkdownAnchors(anchors: seq<Anchor>) returns (allMdAnchors: seq<Anchor>)
    ensures allMdAnchors == Candidates(anchors)
  {
    allMdAnchors := [];
    for i := 0 to |anchors|
      invariant allMdAnchors == Candidates(anchors[..i])
    {
      assert anchors[..i + 1] == anchors[..i] + [anchors[i]];
      CandidatesAppend(anchors[..i], [anchors[i]]);
      match anchors[i].pathname {
        case Some(path) =>
          if EndsWith(path, ".md") || EndsWith(path, ".mdx") {
            allMdAnchors := allMdAnchors + [anchors[i]];
          }
        case None =>
          // `new URL` threw: the anchor is skipped
      }
    }
    assert anchors[..|anchors|] == anchors;
  }

  /**
   * The filename loop of `findMarkdownAnchor`: the index of the first
   * candidate whose filename is `name`, or `|cands|` when there is none.
   */
  method ScanForFilename(cands: seq<Anchor>, name: string) returns (k: nat)
    ensures k == FirstMeeting(cands, FilenameIs(name))
  {
    for i := 0 to |cands|
      invariant forall j :: 0 <= j < i ==> !Meets(cands[j], FilenameIs(name))
    {
      match cands[i].pathname {
        case Some(path) =>
          if AnchorFilename(path) == name {
            FirstMeetingIs(cands, FilenameIs(name), i);
            return i;
          }
        case None =>
      }
    }
    FirstMeetingIs(cands, FilenameIs(name), |cands|);
    return |cands|;
  }

  /**
   * The GitHub loop of `findMarkdownAnchor`: the index of the first
   * candidate whose href contains `/raw/`, or `|cands|` when there is none.
   */
  method ScanForRawHref(cands: seq<Anchor>) returns (k: nat)
    ensures k == FirstMeeting(cands, RawHref)
  {
    for i := 0 to |cands|
      invariant forall j :: 0 <= j < i ==> !Meets(cands[j], RawHref)
    {
      if Contains(cands[i].href, RAW_SEGMENT) {
        FirstMeetingIs(cands, RawHref, i);
        return i;
      }
    }
    FirstMeetingIs(cands, RawHref, |cands|);
    return |cands|;
  }

  /**
   * `findMarkdownAnchor`: collect the candidates, then scan them for the
   * current filename, then (on github.com) for a `/raw/` href, returning at
   * the first hit; else return the first candidate.
   */
  method FindMarkdownAnchor(anchors: seq<Anchor>, loc: Location) returns (r: Option<Anchor>)
    ensures r == SelectAnchor(anchors, loc)
  {
    var allMdAnchors := CollectMarkdownAnchors(anchors);
    if |allMdAnchors| == 0 {
      return None;
    }

    var currentFilename := CurrentFilename(loc.pathname);
    if currentFilename != "" {
      var k := ScanForFilename(allMdAnchors, currentFilename);
      if k < |allMdAnchors| {
        return Some(allMdAnchors[k]);
      }
    }

    if Contains(loc.hostname, GITHUB_HOST) {
      var k := ScanForRawHref(allMdAnchors);
      if k < |allMdAnchors| {
        return Some(allMdAnchors[k]);
      }
    }

    return Some(allMdAnchors[0]);
  }

  // ---------------------------------------------------------------------------
  // Classification
  // ---------------------------------------------------------------------------

  /** The one message `checkMarkdownLink` sends for a page. */
  function Classify(page: Page): (r: Message) {
    match page.alternateHref
    case Some(href) => Message(MARKDOWN_FOUND, Some(href))
    case None =>
      match SelectAnchor(page.anchors, page.location)
      case Some(anchor) => Message(MARKDOWN_LIKELY, Some(ConvertToGitHubRawUrl(anchor.href)))
      case None => Message(MARKDOWN_NOT_FOUND, None)
  }

  /**
   * The tag says which case the page is in, and only `markdown-not-found`
   * comes without a url.
   */
  lemma ClassifyTag(page: Page)
    ensures Classify(page).tag == MARKDOWN_FOUND <==> page.alternateHref.Some?
    ensures Classify(page).tag == MARKDOWN_LIKELY <==>
      page.alternateHref.None? && HasCandidate(page.anchors)
    ensures Classify(page).tag == MARKDOWN_NOT_FOUND <==>
      page.alternateHref.None? && !HasCandidate(page.anchors)
    ensures Classify(page).url.None? <==> Classify(page).tag == MARKDOWN_NOT_FOUND
  {
    SelectNoneIff(page.anchors, page.location);
  }

  /** An alternate link wins over any anchors, and its href is sent verbatim. */
  lemma FoundIsVerbatim(page: Page, anchors: seq<Anchor>)
    requires page.alternateHref.Some?
    ensures Classify(page.(anchors := anchors)) == Message(MARKDOWN_FOUND, page.alternateHref)
  {
  }

  /** Without an alternate link, a candidate yields the selected anchor's rewritten href. */
  lemma LikelyCarriesRawUrl(page: Page)
    requires page.alternateHref.None? && HasCandidate(page.anchors)
    ensures SelectAnchor(page.anchors, page.location).Some?
    ensures Classify(page) == Message(MARKDOWN_LIKELY,
      Some(ConvertToGitHubRawUrl(SelectAnchor(page.anchors, page.location).value.href)))
  {
    SelectNoneIff(page.anchors, page.location);
  }

  /** `browser.runtime.sendMessage`, seen as the list of messages handed to it. */
  class Outbox {
    var sent: seq<Message>

    constructor ()
      ensures sent == []
    {
      sent := [];
    }

    method Send(m: Message)
      modifies this
      ensures sent == old(sent) + [m]
    {
      sent := sent + [m];
    }
  }

  /** `checkMarkdownLink`: sends exactly one message, the page's classification. */
  method CheckMarkdownLink(page: Page, outbox: Outbox)
    modifies outbox
    ensures outbox.sent == old(outbox.sent) + [Classify(page)]
  {
    if page.alternateHref.Some? {
      outbox.Send(Message(MARKDOWN_FOUND, Some(page.alternateHref.value)));
      return;
    }

    var mdAnchor := FindMarkdownAnchor(page.anchors, page.location);
    if mdAnchor.Some? {
      var url := ConvertToGitHubRawUrl(mdAnchor.value.href);
      outbox.Send(Message(MARKDOWN_LIKELY, Some(url)));
      return;
    }

    outbox.Send(Message(MARKDOWN_NOT_FOUND, None));
  }
}
