# View Markdown Source, modelled in Dafny

This project models the core of a browser extension that tells, for each
visited page, whether a Markdown source for it exists, and opens that
source on a toolbar click.

It has two parts.

- **The content script** (`entrypoints/content.ts`) classifies the page and
  sends exactly one tagged message:
  - `markdown-found` when the page declares `<link rel="alternate" type="text/markdown">`,
    with that link's href unchanged;
  - otherwise `markdown-likely` when an anchor points to a `.md`/`.mdx` path,
    with the chosen anchor's href passed through `convertToGitHubRawUrl`,
    which rewrites github.com render URLs to their raw form and returns
    every other href unchanged;
  - otherwise `markdown-not-found`.

  The chosen anchor is the first candidate whose filename equals the page's
  filename, when that filename is non-empty. Failing that, on a hostname mentioning github.com, it is the first
  candidate whose href contains `/raw/`. Failing that, it is the first candidate.
- **The background script** (`entrypoints/background.ts`) keeps one icon per tab:
  blue for found, green for likely, gray for not found. On a toolbar click it
  asks the tab for its Markdown URL and opens a non-empty answer in a new tab.

The DOM and `window.location` are inputs to the model:
- the href of the first alternate Markdown link, if there is one;
- the page's anchors in document order, each paired with the pathname that
  `new URL` gives it (`None` when `new URL` throws);
- the location's pathname and hostname.

`browser.runtime.sendMessage` is an `Outbox` object that collects the
messages sent. `setIcon` becomes a per-tab map, `tabs.sendMessage` a log
of the tabs queried, and `tabs.create` a log of the URLs opened. What a
tab answers to the query is a parameter of the click handler: `NoAnswer`
when the call rejects, `Answer(url)` otherwise.

Modules:
- `Wrappers`: `Option`.
- `Strings`: the JavaScript string operations used, on `seq<char>`:
  - `endsWith` and `includes`;
  - the last element of `split("/")`;
  - the two anchored extension-stripping regular expressions;
  - the global replace of `/blob/`, `/edit/` and `/tree/` by `/raw/`.
- `Protocol`: the message record.
- `Content`: the resolver and the classifier. `SelectAnchor` and `Classify`
  specify what `findMarkdownAnchor` and `checkMarkdownLink` compute.
  `FindMarkdownAnchor` and `CheckMarkdownLink` are the loops and
  early-returning steps of the source, proved against them.
- `Background`: the `Coordinator` class, with its two listeners.
- `Extension`: a lemma about the two scripts together.
- `Scenarios`: pages from the repository's test file, with the anchor the
  code picks for each.

## Model

| member | source | states |
|---|---|---|
| `Strings.EndsWith` | entrypoints/content.ts:45 | `s.endsWith(p)`: `s` has `p` as its final characters; a definition, used by the lemmas below |
| `Strings.Contains` | entrypoints/content.ts:30 | `s.includes(t)`: `t` starts at some position of `s`; a definition. `ContainsPrefix` and `ContainsCons` show that any occurrence is found, `ContainsAt` that a found `t` is an actual occurrence, and `ContainsFits` bounds the needle's length |
| `Strings.ContainsAt` | entrypoints/content.ts:30 | when `s.includes(t)` holds, it returns an index at which `t` occurs in `s` |
| `Strings.ContainsFits` | entrypoints/content.ts:30 | a string contained in another is no longer than it |
| `Strings.LastSegment` | entrypoints/content.ts:59-61 | the result is the part of the path after its last `/`: it contains no `/`, it ends the input, and it is the whole input or follows a `/` |
| `Strings.LastSegmentAfterSlash` | entrypoints/content.ts:59-61 | the last segment of `a + "/" + b`, where `b` has no `/`, is `b` |
| `Strings.StripHtmlExtension` | entrypoints/content.ts:62 | the result is a prefix of the name, and is the name itself or the name minus one final `.html` or `.htm` |
| `Strings.StripHtmlAppended` | entrypoints/content.ts:62 | a name ending in `.html` loses exactly those five characters |
| `Strings.StripHtmAppended` | entrypoints/content.ts:62 | a name ending in `.htm` loses exactly those four characters |
| `Strings.StripHtmlKeepsOthers` | entrypoints/content.ts:62 | a name ending in neither `.html` nor `.htm` is returned as it is |
| `Strings.StripMarkdownExtension` | entrypoints/content.ts:72 | the result is a prefix of the name, and is the name itself or the name minus one final `.mdx` or `.md` |
| `Strings.StripMdAppended` | entrypoints/content.ts:72 | a name ending in `.md` loses exactly those three characters |
| `Strings.StripMdxAppended` | entrypoints/content.ts:72 | a name ending in `.mdx` loses exactly those four characters |
| `Strings.StripMarkdownKeepsOthers` | entrypoints/content.ts:72 | a name ending in neither `.mdx` nor `.md` is returned as it is |
| `Strings.IsRenderSegment` | entrypoints/content.ts:31 | the three strings the replace pattern matches: `/blob/`, `/edit/` and `/tree/`; a definition |
| `Strings.RenderSegmentAt` | entrypoints/content.ts:31 | a match of that pattern starts at index `i`; a definition |
| `Strings.HasRenderSegment` | entrypoints/content.ts:31 | the pattern matches somewhere in the string; a definition, in whose terms `ReplaceUnchangedIff` and `ConvertUnchangedIff` are stated |
| `Strings.RenderSegmentShape` | entrypoints/content.ts:31 | every match is six characters long and begins and ends with `/` |
| `Strings.ReplaceRenderSegments` | entrypoints/content.ts:31 | the replace never makes a string longer |
| `Strings.ReplaceWithoutMatch` | entrypoints/content.ts:31 | a string without `/blob/`, `/edit/` or `/tree/` comes back unchanged |
| `Strings.ReplaceWithMatch` | entrypoints/content.ts:31 | a string with a match gets strictly shorter and then contains `/raw/` |
| `Strings.ReplaceUnchangedIff` | entrypoints/content.ts:31 | the replace leaves a string unchanged exactly when it has no match |
| `Strings.ReplaceCopiesPrefix` | entrypoints/content.ts:31 | the scan goes left to right, and text before the first match is copied through unchanged |
| `Strings.ReplaceAtSegment` | entrypoints/content.ts:31 | a match at the start of the string becomes `/raw/` and the scan resumes right after it |
| `Strings.ReplaceOneSegment` | entrypoints/content.ts:31 | a string whose only match is one segment, with nothing matching before it, has exactly that segment replaced by `/raw/` |
| `Strings.ReplaceIsSinglePass` | entrypoints/content.ts:31 | the replace is one non-overlapping pass: two matches sharing a `/`, such as `/blob/blob/`, give `/raw/` followed by the rest of the second, as in `/raw/blob/`, which still holds a match |
| `Content.ConvertToGitHubRawUrl` | entrypoints/content.ts:29-35 | the rewritten URL is never longer than the input |
| `Content.ConvertUnchangedIff` | entrypoints/content.ts:29-35 | the URL comes back unchanged exactly when it lacks `github.com`, already contains `/raw/`, or has no `/blob/`, `/edit/` or `/tree/` |
| `Content.ConvertRewritten` | entrypoints/content.ts:29-35 | a URL that was changed got strictly shorter and now contains `/raw/` |
| `Content.ConvertOneSegment` | entrypoints/content.ts:29-35 | in a github.com URL with no `/raw/` and a single match, exactly that segment becomes `/raw/` (the shape of the blob, edit and tree tests) |
| `Content.ConvertIdempotent` | entrypoints/content.ts:29-35 | rewriting twice gives the same URL as rewriting once |
| `Content.IsMarkdownPath` | entrypoints/content.ts:45 | a definition: the extension test as written, the path ending in `.md` or in `.mdx`. `MarkdownExtensionsQualify` and `NotMarkdownByLastChar` are two consequences the scenarios use |
| `Content.IsCandidate` | entrypoints/content.ts:43-47 | an anchor is pushed when `new URL` succeeds and its pathname passes the extension test; a definition |
| `Content.MarkdownExtensionsQualify` | entrypoints/content.ts:45 | any path followed by `.md` or `.mdx` passes the extension test |
| `Content.NotMarkdownByLastChar` | entrypoints/content.ts:45 | a path whose last character is neither `d` nor `x` fails the extension test |
| `Content.Candidates` | entrypoints/content.ts:39-51 | `allMdAnchors`: never longer than the page's anchors; exactly the anchors with a parsed `.md`/`.mdx` pathname, by `CandidatesSound` and `CandidatesComplete`, in document order, by `CandidatesAppend` |
| `Content.CandidatesSound` | entrypoints/content.ts:41-51 | every collected anchor is one of the page's anchors and has a parsed pathname ending in `.md` or `.mdx` |
| `Content.CandidatesComplete` | entrypoints/content.ts:41-51 | every anchor with a parsed pathname ending in `.md` or `.mdx` is collected |
| `Content.CandidatesAppend` | entrypoints/content.ts:42-47 | candidates keep document order: the candidates of `a + b` are those of `a` followed by those of `b` |
| `Content.CurrentFilename` | entrypoints/content.ts:59-62 | the page's filename never holds a `/`; with `LastSegment` and `StripHtmlExtension` it is the last path segment minus one `.html`/`.htm` |
| `Content.AnchorFilename` | entrypoints/content.ts:69-72 | an anchor's filename never holds a `/`; with `LastSegment` and `StripMarkdownExtension` it is the last path segment minus one `.mdx`/`.md` |
| `Content.Meets` | entrypoints/content.ts:69-74 | the test of the two scan loops: the parsed pathname's filename equals the page's (lines 69-74), or the href contains `/raw/` (line 86); a definition |
| `Content.FirstMeeting` | entrypoints/content.ts:66-89 | the scan returns an index no larger than the length, and the candidate there meets the criterion |
| `Content.FirstMeetingSkips` | entrypoints/content.ts:66-89 | no candidate before that index meets the criterion |
| `Content.FirstMeetingIs` | entrypoints/content.ts:66-89 | conversely, any index with those two properties is the one the scan returns |
| `Content.FirstMeetingAfter` | entrypoints/content.ts:66-89 | scanning past a prefix where nothing meets the criterion adds the prefix's length |
| `Content.SelectAnchor` | entrypoints/content.ts:37-94 | the anchor `findMarkdownAnchor` returns; pinned down by `SelectNoneIff`, `SelectIsCandidate`, `FilenamePriority`, `GitHubRawFallback` and `DocumentOrderFallback` |
| `Content.SelectNoneIff` | entrypoints/content.ts:42-53 | no anchor is returned exactly when no anchor has a parseable pathname ending in `.md`/`.mdx`; anchors that fail to parse are skipped |
| `Content.SelectIsCandidate` | entrypoints/content.ts:53-93 | a returned anchor is one of the page's anchors and is a candidate |
| `Content.FilenamePriority` | entrypoints/content.ts:59-81 | if the current filename is non-empty, the first candidate in document order with that filename is returned, wherever it stands |
| `Content.GitHubRawFallback` | entrypoints/content.ts:83-90 | with no filename match and a hostname containing `github.com`, the first candidate whose href contains `/raw/` is returned |
| `Content.DocumentOrderFallback` | entrypoints/content.ts:92-93 | with no filename match, and not on github.com or with no `/raw/` candidate, the first candidate in document order is returned |
| `Content.TrailingSlashHasNoFilename` | entrypoints/content.ts:59-65 | a path ending in `/`, including the root path, has an empty filename, so the filename scan is skipped |
| `Content.CollectMarkdownAnchors` | entrypoints/content.ts:38-51 | the collecting loop produces exactly the candidate sequence |
| `Content.ScanForFilename` | entrypoints/content.ts:66-80 | the filename loop returns the index of the first candidate whose filename is the given one, or the length |
| `Content.ScanForRawHref` | entrypoints/content.ts:85-89 | the GitHub loop returns the index of the first candidate whose href contains `/raw/`, or the length |
| `Content.FindMarkdownAnchor` | entrypoints/content.ts:37-94 | the three loops and their early returns compute exactly `SelectAnchor` |
| `Content.Classify` | entrypoints/content.ts:1-27 | the message `checkMarkdownLink` sends; pinned down by `ClassifyTag`, `FoundIsVerbatim` and `LikelyCarriesRawUrl` |
| `Content.ClassifyTag` | entrypoints/content.ts:1-27 | the tag is `markdown-found` iff an alternate link exists, `markdown-likely` iff there is none but a candidate exists, and `markdown-not-found` iff there is neither; only `markdown-not-found` has no url |
| `Content.FoundIsVerbatim` | entrypoints/content.ts:2-11 | with an alternate link the message is `markdown-found` carrying its href unchanged, whatever the anchors are |
| `Content.LikelyCarriesRawUrl` | entrypoints/content.ts:13-21 | without an alternate link but with a candidate, the message is `markdown-likely` with the rewritten href of the selected anchor |
| `Content.Outbox.Send` | entrypoints/content.ts:6-26 | sending appends the message to what has been sent |
| `Content.CheckMarkdownLink` | entrypoints/content.ts:1-27 | each call appends exactly one message, the page's classification |
| `Background.IsTruthyId` | entrypoints/background.ts:9 | the `if (!id) return` guard: an id passes when it is present and not 0; used by `IconUpdate`, `NoTabNoChange` and `OnClicked` |
| `Background.SetsIconOf` | entrypoints/background.ts:9-17 | the listener reaches `setIcon` for tab `t` exactly when the sender's tab id is truthy and equal to `t` and the message type is a key of `ICON_MAP`; a definition |
| `Background.IconUpdate` | entrypoints/background.ts:8-18 | with a truthy sender tab id and a known type, the sender's tab gets that type's icon; no other tab's entry changes |
| `Background.NoTabNoChange` | entrypoints/background.ts:9 | a sender with no truthy tab id (tab 0 included) changes no icon |
| `Background.UnknownTypeNoChange` | entrypoints/background.ts:11-12 | a message type other than the three known ones changes no icon |
| `Background.IconColours` | entrypoints/background.ts:1-5 | found gives `/icon-blue.png`, likely `/icon-green.png`, not-found `/icon-gray.png` |
| `Background.Replay` | entrypoints/background.ts:8-18 | the icons after a run of listener calls, one `IconUpdate` per delivery in order; a definition, characterised by `ReplayLatestWins` and `ReplayUntouched` |
| `Background.ReplayLatestWins` | entrypoints/background.ts:14-17 | over a run of messages, a tab shows the icon of the last known-type message it sent |
| `Background.ReplayUntouched` | entrypoints/background.ts:8-18 | a tab that sent no such message keeps its entry, or its lack of one |
| `Background.Coordinator.constructor` | entrypoints/background.ts:7 | no icons, no queries and no opened tabs at start |
| `Background.Coordinator.OnMessage` | entrypoints/background.ts:8-18 | the icons move by `IconUpdate`, nothing else changes, and the invariant is kept: icons are only the three paths, never under tab 0 |
| `Background.Coordinator.OnClicked` | entrypoints/background.ts:20-33 | without a truthy tab id nothing happens; otherwise the tab is queried once, and exactly one tab is opened, with the url, when the answer carries a non-empty url; a rejected query or an absent or empty url opens nothing; icons are unchanged |
| `Extension.IconReflectsPage` | entrypoints/background.ts:11-17 | after a tab's check, its icon is blue iff the page has an alternate link, green iff it has none but a candidate, and gray iff it has neither |
| `Scenarios.FilenameMatchScenario` | test/content.spec.ts:43-65 | on `/foo/bar.html` and `/foo/bar`, `bar.md` is chosen over an earlier `baz.md` |
| `Scenarios.TrailingSlashScenario` | test/content.spec.ts:67-89 | on `/foo/bar/` (example.com) the first candidate is chosen, because the filename is empty; so `[baz.md, index.md]` gives `baz.md` |
| `Scenarios.RootPathScenario` | test/content.spec.ts:152-162 | on the root path `/` (example.com) the filename is empty too, so `[index.md, readme.md]` gives `index.md` |
| `Scenarios.MdxScenario` | test/content.spec.ts:91-100 | a `.mdx` anchor is a candidate and matches by its stripped name |
| `Scenarios.NoCandidateScenario` | test/content.spec.ts:31-41 | a page with only `.pdf`, `.html` and unparseable anchors selects nothing |

## Where the tests and the code differ

The model follows `entrypoints/content.ts`. Several expectations in
`test/content.spec.ts` are not implemented there:
- `.rst` support (lines 102-111): only `.md` and `.mdx` are candidates.
- README priority on a GitHub repository root (lines 113-126).
- An `index` fallback for paths ending in `/` (lines 79-89).
  `Scenarios.TrailingSlashScenario` states what the code does instead:
  it picks `baz.md`.
- A url-less `markdown-found` message (lines 180-182 and 196-198): the
  code sends the link's href.
- A url-less `markdown-likely` message (lines 209-211): the code sends the
  rewritten href of the selected anchor.

The test file also imports `checkForMarkdown` and exported
`findMarkdownAnchor` and `convertToGitHubRawUrl` functions. The code names the
first function `checkMarkdownLink` and exports none of the three.

## Left out

- `defineContentScript.main` (content.ts:96-112): the initial call, the
  `MutationObserver` and the `pageshow` listener are event plumbing. Each of
  them calls `checkMarkdownLink` once, which is `CheckMarkdownLink`.
- `document.querySelector`, `document.querySelectorAll` and WHATWG URL
  parsing are not modelled. Their results are inputs. The second
  `new URL(anchor.href)` (content.ts:68) is deterministic, so the model
  reuses the pathname from the first parse.
- No part of the model answers the `get-markdown-url` query
  (background.ts:24-26), because `entrypoints/content.ts` registers no
  listener for it. The reply is therefore a parameter of `OnClicked`.
- `Background.IconUpdate`: `ICON_MAP` is modelled as exactly its three own
  keys. A JavaScript object lookup would also find names inherited from
  `Object.prototype`, such as `toString`; the model does not.
- `Background.IsTruthyId`: only "absent" and `0` are falsy tab ids.
  `NaN` is not modelled. A message `type` is always a string.
- The asynchrony of `sendMessage`, `tabs.sendMessage` and `setIcon` is not
  modelled, nor any failure of `setIcon` or `tabs.create`. Each listener call
  is one atomic step.
- `shared/on-get-markdown-url-copy.ts`, `shared/on-get-url-copy.ts`,
  `shared/on-get-markdown-url-view.ts` and `shared/on-get-url-view.ts` are
  not modelled. They wrap `fetch`, the clipboard module, notifications and
  `tabs.create`, none of which is visible here.
- `wxt.config.ts`: manifest and build settings only.
- The GitHub `/raw/` preference is proved in general (`GitHubRawFallback`).
  Its test page is not restated on literal URLs, and neither are the URL
  rewriting tests (test/content.spec.ts:228-259). `ConvertOneSegment` and
  `ConvertUnchangedIff` state those cases in general form.
