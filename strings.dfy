/**
 * The JavaScript string operations the content script relies on, written out
 * on `seq<char>`: `endsWith`, `includes`, the last element of `split("/")`,
 * the anchored extension-stripping regular expressions, and the global
 * replace of `/blob/`, `/edit/` and `/tree/` by `/raw/`. `StartsWith` is a
 * helper of `Contains`; the script itself never calls `startsWith`.
 */
module Strings {

  /** `s.startsWith(p)` */
  predicate StartsWith(s: string, p: string) {
    |p| <= |s| && s[..|p|] == p
  }

  /** `s.endsWith(p)` */
  predicate EndsWith(s: string, p: string) {
    |p| <= |s| && s[|s| - |p|..] == p
  }

  /** `s.includes(t)`: `t` occurs in `s` at some position. */
  predicate Contains(s: string, t: string)
    decreases |s|
  {
    StartsWith(s, t) || (|s| > 0 && Contains(s[1..], t))
  }

  lemma ContainsPrefix(s: string, t: string)
    requires StartsWith(s, t)
    ensures Contains(s, t)
  {
  }

  lemma {:induction false} ContainsFits(s: string, t: string)
    requires Contains(s, t)
    ensures |t| <= |s|
    decreases |s|
  {
    if !StartsWith(s, t) {
      ContainsFits(s[1..], t);
    }
  }

  lemma ContainsCons(c: char, s: string, t: string)
    requires Contains(s, t)
    ensures Contains([c] + s, t)
  {
    assert ([c] + s)[1..] == s;
  }

  /** Conversely, `Contains` finds an actual occurrence of `t` in `s`. */
  lemma {:induction false} ContainsAt(s: string, t: string) returns (i: int)
    requires Contains(s, t)
    ensures 0 <= i <= |s| - |t| && s[i..i + |t|] == t
    decreases |s|
  {
    if StartsWith(s, t) {
      i := 0;
    } else {
      var j := ContainsAt(s[1..], t);
      assert s[1..][j..j + |t|] == s[j + 1..j + 1 + |t|];
      i := j + 1;
    }
  }

  lemma SuffixOfSnoc(s: string, c: char, k: int)
    requires 0 <= k <= |s|
    ensures (s + [c])[k..] == s[k..] + [c]
  {
  }

  /**
   * `s.split("/").pop()`: the text after the last `/`, or all of `s` when it
   * has none. The three ensures pin the result down uniquely: a suffix of `s`
   * without `/`, preceded in `s` by a `/` unless it is all of `s`.
   */
  function LastSegment(s: string): (r: string)
    ensures '/' !in r
    ensures EndsWith(s, r)
    ensures |r| < |s| ==> s[|s| - |r| - 1] == '/'
  {
    if |s| == 0 then ""
    else if s[|s| - 1] == '/' then ""
    else
      var init := s[..|s| - 1];
      var r0 := LastSegment(init);
      SuffixOfSnoc(init, s[|s| - 1], |init| - |r0|);
      assert s == init + [s[|s| - 1]];
      r0 + [s[|s| - 1]]
  }

  /** The last segment of a path `a/b`, where `b` has no `/`, is `b`. */
  lemma LastSegmentAfterSlash(a: string, b: string)
    requires '/' !in b
    ensures LastSegment(a + "/" + b) == b
  {
    var s := a + "/" + b;
    var r := LastSegment(s);
    assert s[|s| - |b| - 1] == '/';
    assert forall k :: 0 <= k < |r| ==> r[k] == s[|s| - |r| + k];
    assert s[|s| - |b|..] == b;
  }

  /**
   * `name.replace(/\.(html?)$/, "")`: drops one trailing `.html` or `.htm`.
   * The result is a prefix of `name`, and at most one extension is removed.
   */
  function StripHtmlExtension(name: string): (r: string)
    ensures r <= name
    ensures r == name || name == r + ".html" || name == r + ".htm"
  {
    if EndsWith(name, ".html") then
      assert name == name[..|name| - 5] + name[|name| - 5..];
      name[..|name| - 5]
    else if EndsWith(name, ".htm") then
      assert name == name[..|name| - 4] + name[|name| - 4..];
      name[..|name| - 4]
    else name
  }

  /** `name.replace(/\.mdx?$/, "")`: drops one trailing `.mdx` or `.md`. */
  function StripMarkdownExtension(name: string): (r: string)
    ensures r <= name
    ensures r == name || name == r + ".mdx" || name == r + ".md"
  {
    if EndsWith(name, ".mdx") then
      assert name == name[..|name| - 4] + name[|name| - 4..];
      name[..|name| - 4]
    else if EndsWith(name, ".md") then
      assert name == name[..|name| - 3] + name[|name| - 3..];
      name[..|name| - 3]
    else name
  }

  /** A name ending in `.html` loses exactly that extension. */
  lemma StripHtmlAppended(stem: string)
    ensures StripHtmlExtension(stem + ".html") == stem
  {
    var n := stem + ".html";
    assert n[|n| - 5..] == ".html";
    assert n[..|n| - 5] == stem;
  }

  /** A name ending in `.htm` loses exactly that extension. */
  lemma StripHtmAppended(stem: string)
    ensures StripHtmlExtension(stem + ".htm") == stem
  {
    var n := stem + ".htm";
    assert n[|n| - 1] == 'm';
    assert n[|n| - 4..] == ".htm";
    assert n[..|n| - 4] == stem;
  }

  /** A name ending in neither `.html` nor `.htm` is returned as it is. */
  lemma StripHtmlKeepsOthers(name: string)
    requires !EndsWith(name, ".html") && !EndsWith(name, ".htm")
    ensures StripHtmlExtension(name) == name
  {
  }

  /** A name ending in `.md` loses exactly that extension. */
  lemma StripMdAppended(stem: string)
    ensures StripMarkdownExtension(stem + ".md") == stem
  {
    var n := stem + ".md";
    assert n[|n| - 1] == 'd';
    assert n[|n| - 3..] == ".md";
    assert n[..|n| - 3] == stem;
  }

  /** A name ending in `.mdx` loses exactly that extension. */
  lemma StripMdxAppended(stem: string)
    ensures StripMarkdownExtension(stem + ".mdx") == stem
  {
    var n := stem + ".mdx";
    assert n[|n| - 4..] == ".mdx";
    assert n[..|n| - 4] == stem;
  }

  /** A name ending in neither `.mdx` nor `.md` is returned as it is. */
  lemma StripMarkdownKeepsOthers(name: string)
    requires !EndsWith(name, ".mdx") && !EndsWith(name, ".md")
    ensures StripMarkdownExtension(name) == name
  {
  }

  const RAW_SEGMENT: string := "/raw/"

  /** The three path segments the regular expression `/\/(blob|edit|tree)\//` matches. */
  predicate IsRenderSegment(w: string) {
    w == "/blob/" || w == "/edit/" || w == "/tree/"
  }

  /** A match of `/\/(blob|edit|tree)\//` starts at index `i` of `s`. */
  predicate RenderSegmentAt(s: string, i: int) {
    0 <= i && i + 6 <= |s| && IsRenderSegment(s[i..i + 6])
  }

  predicate HasRenderSegment(s: string) {
    exists i | 0 <= i < |s| :: RenderSegmentAt(s, i)
  }

  /**
   * `s.replace(/\/(blob|edit|tree)\//g, "/raw/")`: a single left-to-right scan
   * that replaces each match and resumes after it, so matches never overlap.
   */
  function ReplaceRenderSegments(s: string): (r: string)
    ensures |r| <= |s|
  {
    if |s| == 0 then ""
    else if |s| >= 6 && IsRenderSegment(s[..6]) then RAW_SEGMENT + ReplaceRenderSegments(s[6..])
    else [s[0]] + ReplaceRenderSegments(s[1..])
  }

  lemma RenderSegmentShift(s: string, i: int)
    requires |s| > 0 && 0 <= i
    ensures RenderSegmentAt(s[1..], i) <==> RenderSegmentAt(s, i + 1)
  {
    if 0 <= i && i + 7 <= |s| {
      assert s[1..][i..i + 6] == s[i + 1..i + 7];
    }
  }

  /** Without a match the replace returns its input unchanged. */
  lemma {:induction false} ReplaceWithoutMatch(s: string)
    requires !HasRenderSegment(s)
    ensures ReplaceRenderSegments(s) == s
    decreases |s|
  {
    if |s| > 0 {
      assert !RenderSegmentAt(s, 0);
      assert !(|s| >= 6 && IsRenderSegment(s[..6])) by {
        if |s| >= 6 { assert s[..6] == s[0..6]; }
      }
      forall i | RenderSegmentAt(s[1..], i) ensures false {
        RenderSegmentShift(s, i);
      }
      ReplaceWithoutMatch(s[1..]);
      assert s == [s[0]] + s[1..];
    }
  }

  /**
   * With at least one match the replace makes its input strictly shorter and
   * leaves a `/raw/` in the result.
   */
  lemma {:induction false} ReplaceWithMatch(s: string)
    requires HasRenderSegment(s)
    ensures |ReplaceRenderSegments(s)| < |s|
    ensures Contains(ReplaceRenderSegments(s), RAW_SEGMENT)
    decreases |s|
  {
    var i :| 0 <= i < |s| && RenderSegmentAt(s, i);
    if i == 0 {
      assert s[..6] == s[0..6];
      assert |s| >= 6 && IsRenderSegment(s[..6]);
    }
    if |s| >= 6 && IsRenderSegment(s[..6]) {
      ContainsPrefix(ReplaceRenderSegments(s), RAW_SEGMENT);
    } else {
      RenderSegmentShift(s, i - 1);
      ReplaceWithMatch(s[1..]);
      ContainsCons(s[0], ReplaceRenderSegments(s[1..]), RAW_SEGMENT);
    }
  }

  /** Text before the first match is copied through unchanged. */
  lemma {:induction false} ReplaceCopiesPrefix(a: string, b: string)
    requires forall i :: 0 <= i < |a| ==> !RenderSegmentAt(a + b, i)
    ensures ReplaceRenderSegments(a + b) == a + ReplaceRenderSegments(b)
    decreases |a|
  {
    if |a| == 0 {
      assert a + b == b;
    } else {
      var s := a + b;
      assert !(|s| >= 6 && IsRenderSegment(s[..6])) by {
        if |s| >= 6 {
          assert !RenderSegmentAt(s, 0);
          assert s[..6] == s[0..6];
        }
      }
      assert s[1..] == a[1..] + b;
      forall i | 0 <= i < |a| - 1 ensures !RenderSegmentAt(a[1..] + b, i) {
        RenderSegmentShift(s, i);
      }
      calc {
        ReplaceRenderSegments(s);
        [s[0]] + ReplaceRenderSegments(s[1..]);
        [a[0]] + ReplaceRenderSegments(a[1..] + b);
        { ReplaceCopiesPrefix(a[1..], b); }
        [a[0]] + (a[1..] + ReplaceRenderSegments(b));
        { assert a == [a[0]] + a[1..]; }
        a + ReplaceRenderSegments(b);
      }
    }
  }

  /**
   * A string whose only match is the segment `w`, with no match starting
   * before it, has exactly that segment replaced.
   */
  lemma ReplaceOneSegment(p: string, w: string, q: string)
    requires IsRenderSegment(w)
    requires forall i :: 0 <= i < |p| ==> !RenderSegmentAt(p + (w + q), i)
    requires !HasRenderSegment(q)
    ensures ReplaceRenderSegments(p + (w + q)) == p + (RAW_SEGMENT + q)
  {
    ReplaceCopiesPrefix(p, w + q);
    ReplaceAtSegment(w, q);
    ReplaceWithoutMatch(q);
  }

  lemma ReplaceAtSegment(w: string, q: string)
    requires IsRenderSegment(w)
    ensures ReplaceRenderSegments(w + q) == RAW_SEGMENT + ReplaceRenderSegments(q)
  {
    var s := w + q;
    assert s[..6] == w;
    assert s[6..] == q;
  }

  /** The replace changes its input exactly when the input holds a match. */
  lemma ReplaceUnchangedIff(s: string)
    ensures ReplaceRenderSegments(s) == s <==> !HasRenderSegment(s)
  {
    if HasRenderSegment(s) {
      ReplaceWithMatch(s);
    } else {
      ReplaceWithoutMatch(s);
    }
  }

  /** Every match is six characters long and begins and ends with `/`. */
  lemma RenderSegmentShape(w: string)
    requires IsRenderSegment(w)
    ensures |w| == 6 && w[0] == '/' && w[5] == '/'
  {
  }

  /**
   * The scan resumes after each replacement, so an occurrence that overlaps
   * a replaced one survives: one pass over `/blob/blob/` leaves a `/blob/`.
   */
  lemma ReplaceIsSinglePass(u: string, w: string)
    requires IsRenderSegment(u) && IsRenderSegment(w)
    ensures ReplaceRenderSegments(u + w[1..]) == RAW_SEGMENT + w[1..]
    ensures HasRenderSegment(RAW_SEGMENT + w[1..])
  {
    var rest := w[1..];
    ReplaceAtSegment(u, rest);
    assert !HasRenderSegment(rest);
    ReplaceWithoutMatch(rest);
    var t := RAW_SEGMENT + rest;
    RenderSegmentShape(w);
    assert w == [w[0]] + rest;
    assert t[4..10] == w;
    assert RenderSegmentAt(t, 4);
  }
}
