/**
 * The four span matchers of build_consent.py. Each returns `(new_html, found)`:
 * it rewrites the leftmost match only (`count=1`), keeping everything before and
 * after the matched span, and returns the input unchanged with `false` when the
 * pattern matches nowhere.
 */
module Matchers {
  import opened Wrappers
  import opened Text
  import opened Tokens
  import opened Scan

  // ---------------------------------------------------------------- probes

  /** The marker comment `<!--\s*name\s*-->`, consumed. */
  function MarkerProbe(name: string): Probe {
    (d: seq<char>, p: nat) => MarkerEnd(d, p, name)
  }

  /** The heading `<h3[^>]*>\s*text\s*</h3>\s*`, consumed. */
  function PrefixProbe(text: string): Probe {
    (d: seq<char>, p: nat) => PrefixEnd(d, p, text)
  }

  /** The after-heading lookahead. */
  function BoundaryProbe(): Probe {
    (d: seq<char>, p: nat) => if Boundary(d, p) then Some(p) else None
  }

  /** The lookahead `(?=<h3[^>]*>\s*text\s*</h3>)`. */
  function HeadingProbe(text: string): Probe {
    (d: seq<char>, p: nat) => if HeadingEnd(d, p, text).Some? then Some(p) else None
  }

  /** The lookahead `(?=<h2[^>]*>[\s\S]*?fragment[\s\S]*?</h2>)`. */
  function H2Probe(fragment: string): Probe {
    (d: seq<char>, p: nat) => if H2AheadCheck(d, p, fragment) then Some(p) else None
  }

  // ---------------------------------------------------------------- markers

  /** A start marker at `i` with an end marker somewhere after it. */
  ghost predicate MarkerPairAt(doc: seq<char>, i: nat, s: string, e: string) {
    exists j: nat, k: nat, l: nat :: MarkerAt(doc, i, j, s) && j <= k && MarkerAt(doc, k, l, e)
  }

  /**
   * The span `doc[i..l]` is the one the marker pattern replaces: start marker
   * `doc[i..j]`, body `doc[j..k]` as short as possible, end marker `doc[k..l]`,
   * and no pair starts before `i`.
   */
  ghost predicate FirstMarkerPair(doc: seq<char>, s: string, e: string, i: nat, j: nat, k: nat, l: nat) {
    && MarkerAt(doc, i, j, s) && j <= k && MarkerAt(doc, k, l, e)
    && (forall k': nat, l': nat :: j <= k' < k ==> !MarkerAt(doc, k', l', e))
    && (forall i': nat :: i' < i ==> !MarkerPairAt(doc, i', s, e))
  }

  /** A marker comment in the normalised form the matcher writes. */
  function NormalMarker(name: string): string {
    "<!-- " + name + " -->"
  }

  /** The text written in place of the matched span. */
  function MarkerBlock(s: string, e: string, replacement: string): string {
    NormalMarker(s) + "\n" + replacement + "\n" + NormalMarker(e)
  }

  lemma MarkerMatchIff(doc: seq<char>, i: nat, s: string, e: string)
    ensures MatchesAt(doc, i, MarkerProbe(s), MarkerProbe(e)) <==> MarkerPairAt(doc, i, s, e)
  {
    if MatchesAt(doc, i, MarkerProbe(s), MarkerProbe(e)) {
      var j := MarkerEnd(doc, i, s).value;
      var k: nat :| j <= k <= |doc| && MarkerProbe(e)(doc, k).Some?;
      var l := MarkerEnd(doc, k, e).value;
      assert MarkerAt(doc, i, j, s) && MarkerAt(doc, k, l, e);
    }
    if MarkerPairAt(doc, i, s, e) {
      var j: nat, k: nat, l: nat :| MarkerAt(doc, i, j, s) && j <= k && MarkerAt(doc, k, l, e);
      assert MarkerEnd(doc, i, s) == Some(j);
      assert MarkerProbe(e)(doc, k) == Some(l);
    }
  }

  lemma MarkerScan(doc: seq<char>, s: string, e: string)
    ensures var r := FindFirst(doc, 0, MarkerProbe(s), MarkerProbe(e));
      && (r.Some? ==> FirstMarkerPair(doc, s, e, r.value.start, r.value.bodyStart, r.value.bodyEnd, r.value.stop))
      && (r.None? ==> forall i: nat :: !MarkerPairAt(doc, i, s, e))
  {
    forall i: nat ensures MatchesAt(doc, i, MarkerProbe(s), MarkerProbe(e)) <==> MarkerPairAt(doc, i, s, e) {
      MarkerMatchIff(doc, i, s, e);
    }
    var r := FindFirst(doc, 0, MarkerProbe(s), MarkerProbe(e));
    if r.Some? {
      var sp := r.value;
      assert MarkerEnd(doc, sp.start, s) == Some(sp.bodyStart);
      assert MarkerEnd(doc, sp.bodyEnd, e) == Some(sp.stop);
      forall k': nat, l': nat | sp.bodyStart <= k' < sp.bodyEnd ensures !MarkerAt(doc, k', l', e) {
        assert MarkerProbe(e)(doc, k').None?;
      }
    } else {
      forall i: nat ensures !MarkerPairAt(doc, i, s, e) {
        if i <= |doc| {
          assert !MatchesAt(doc, i, MarkerProbe(s), MarkerProbe(e));
        } else {
          assert forall j: nat :: !MarkerAt(doc, i, j, s);
        }
      }
    }
  }

  /**
   * `replace_between_markers`: replaces the first start-marker comment, the
   * shortest body after it and the first following end-marker comment by
   * `MarkerBlock(s, e, replacement)`.
   */
  function ReplaceBetweenMarkers(html: seq<char>, s: string, e: string, replacement: string): (r: (seq<char>, bool))
    ensures r.1 <==> exists i: nat :: MarkerPairAt(html, i, s, e)
    ensures !r.1 ==> r.0 == html
    ensures r.1 ==> exists i: nat, j: nat, k: nat, l: nat ::
      FirstMarkerPair(html, s, e, i, j, k, l) && r.0 == html[..i] + MarkerBlock(s, e, replacement) + html[l..]
  {
    MarkerScan(html, s, e);
    match FindFirst(html, 0, MarkerProbe(s), MarkerProbe(e))
    case None => (html, false)
    case Some(sp) =>
      assert MarkerPairAt(html, sp.start, s, e);
      (html[..sp.start] + MarkerBlock(s, e, replacement) + html[sp.stop..], true)
  }

  // ---------------------------------------------------------------- headings

  /** The kept prefix is `doc[i..p]`: an `<h3>` heading with `text` and the whitespace after it. */
  lemma PrefixFromHeading(doc: seq<char>, i: nat, j: nat, text: string)
    requires HeadingAt(doc, i, j, text)
    ensures PrefixEnd(doc, i, text) == Some(SkipSpace(doc, j))
  {
    assert HeadingPrefixAt(doc, i, SkipSpace(doc, j), text);
  }

  /**
   * The span `doc[p..e]` is the one the after-heading pattern replaces: the first
   * heading with `text` starts at `i` and its kept prefix ends at `p`; `e` is the
   * first boundary at or after `p`.
   */
  ghost predicate FirstAfterHeading(doc: seq<char>, text: string, i: nat, p: nat, e: nat) {
    && HeadingPrefixAt(doc, i, p, text) && p <= e <= |doc| && Boundary(doc, e)
    && (forall e': nat :: p <= e' < e ==> !Boundary(doc, e'))
    && (forall i': nat, j': nat :: i' < i ==> !HeadingAt(doc, i', j', text))
  }

  lemma AfterHeadingMatchIff(doc: seq<char>, i: nat, text: string)
    ensures MatchesAt(doc, i, PrefixProbe(text), BoundaryProbe()) <==> exists j: nat :: HeadingAt(doc, i, j, text)
  {
    if MatchesAt(doc, i, PrefixProbe(text), BoundaryProbe()) {
      var p := PrefixEnd(doc, i, text).value;
      assert HeadingPrefixAt(doc, i, p, text);
    }
    if j: nat :| HeadingAt(doc, i, j, text) {
      PrefixFromHeading(doc, i, j, text);
      assert BoundaryProbe()(doc, |doc|).Some?;
    }
  }

  lemma AfterHeadingScan(doc: seq<char>, text: string)
    ensures var r := FindFirst(doc, 0, PrefixProbe(text), BoundaryProbe());
      && (r.Some? ==>
           r.value.bodyEnd == r.value.stop && FirstAfterHeading(doc, text, r.value.start, r.value.bodyStart, r.value.bodyEnd))
      && (r.None? ==> forall i: nat, j: nat :: !HeadingAt(doc, i, j, text))
  {
    forall i: nat ensures MatchesAt(doc, i, PrefixProbe(text), BoundaryProbe()) <==> exists j: nat :: HeadingAt(doc, i, j, text) {
      AfterHeadingMatchIff(doc, i, text);
    }
    var r := FindFirst(doc, 0, PrefixProbe(text), BoundaryProbe());
    if r.Some? {
      AfterHeadingFound(doc, text, r.value);
    } else {
      forall i: nat, j: nat ensures !HeadingAt(doc, i, j, text) {
        if i <= |doc| {
          assert !MatchesAt(doc, i, PrefixProbe(text), BoundaryProbe());
        }
      }
    }
  }

  lemma AfterHeadingFound(doc: seq<char>, text: string, sp: Span)
    requires IsFirstMatch(doc, 0, PrefixProbe(text), BoundaryProbe(), sp)
    requires forall i: nat :: MatchesAt(doc, i, PrefixProbe(text), BoundaryProbe()) <==> exists j: nat :: HeadingAt(doc, i, j, text)
    ensures sp.bodyEnd == sp.stop && FirstAfterHeading(doc, text, sp.start, sp.bodyStart, sp.bodyEnd)
  {
    assert PrefixEnd(doc, sp.start, text) == Some(sp.bodyStart);
    assert BoundaryProbe()(doc, sp.bodyEnd) == Some(sp.stop);
    forall e': nat | sp.bodyStart <= e' < sp.bodyEnd ensures !Boundary(doc, e') {
      assert BoundaryProbe()(doc, e').None?;
    }
    forall i': nat, j': nat | i' < sp.start ensures !HeadingAt(doc, i', j', text) {
      assert !MatchesAt(doc, i', PrefixProbe(text), BoundaryProbe());
    }
  }

  /**
   * `replace_section_after_heading`: keeps the first `<h3>` heading with `text`
   * and the whitespace after it, and replaces what follows, up to the first
   * boundary, by `replacement + "\n"`.
   */
  function ReplaceSectionAfterHeading(html: seq<char>, text: string, replacement: string): (r: (seq<char>, bool))
    ensures r.1 <==> exists i: nat, j: nat :: HeadingAt(html, i, j, text)
    ensures !r.1 ==> r.0 == html
    ensures r.1 ==> exists i: nat, p: nat, e: nat ::
      FirstAfterHeading(html, text, i, p, e) && r.0 == html[..p] + replacement + "\n" + html[e..]
  {
    AfterHeadingScan(html, text);
    match FindFirst(html, 0, PrefixProbe(text), BoundaryProbe())
    case None => (html, false)
    case Some(sp) =>
      assert HeadingPrefixAt(html, sp.start, sp.bodyStart, text);
      (html[..sp.bodyStart] + replacement + "\n" + html[sp.bodyEnd..], true)
  }

  /** The heading with `s` at `i`, and a heading with `e` at or after its kept prefix. */
  ghost predicate HeadingPairAt(doc: seq<char>, i: nat, s: string, e: string) {
    exists p: nat, k: nat, l: nat :: HeadingPrefixAt(doc, i, p, s) && p <= k && HeadingAt(doc, k, l, e)
  }

  /**
   * The span `doc[p..k]` is the one the heading-pair pattern replaces: the first
   * start heading that has an end heading after it is at `i`, its kept prefix
   * ends at `p`, and `k` is where the first end heading after `p` begins.
   */
  ghost predicate FirstHeadingPair(doc: seq<char>, s: string, e: string, i: nat, p: nat, k: nat) {
    && HeadingPrefixAt(doc, i, p, s) && p <= k && (exists l: nat :: HeadingAt(doc, k, l, e))
    && (forall k': nat, l': nat :: p <= k' < k ==> !HeadingAt(doc, k', l', e))
    && (forall i': nat :: i' < i ==> !HeadingPairAt(doc, i', s, e))
  }

  lemma HeadingPairMatchIff(doc: seq<char>, i: nat, s: string, e: string)
    ensures MatchesAt(doc, i, PrefixProbe(s), HeadingProbe(e)) <==> HeadingPairAt(doc, i, s, e)
  {
    if MatchesAt(doc, i, PrefixProbe(s), HeadingProbe(e)) {
      var p := PrefixEnd(doc, i, s).value;
      var k: nat :| p <= k <= |doc| && HeadingProbe(e)(doc, k).Some?;
      var l := HeadingEnd(doc, k, e).value;
      assert HeadingPrefixAt(doc, i, p, s) && HeadingAt(doc, k, l, e);
    }
    if HeadingPairAt(doc, i, s, e) {
      var p: nat, k: nat, l: nat :| HeadingPrefixAt(doc, i, p, s) && p <= k && HeadingAt(doc, k, l, e);
      assert PrefixEnd(doc, i, s) == Some(p);
      assert HeadingProbe(e)(doc, k) == Some(k);
    }
  }

  lemma HeadingPairScan(doc: seq<char>, s: string, e: string)
    ensures var r := FindFirst(doc, 0, PrefixProbe(s), HeadingProbe(e));
      && (r.Some? ==>
           r.value.bodyEnd == r.value.stop && FirstHeadingPair(doc, s, e, r.value.start, r.value.bodyStart, r.value.bodyEnd))
      && (r.None? ==> forall i: nat :: !HeadingPairAt(doc, i, s, e))
  {
    forall i: nat ensures MatchesAt(doc, i, PrefixProbe(s), HeadingProbe(e)) <==> HeadingPairAt(doc, i, s, e) {
      HeadingPairMatchIff(doc, i, s, e);
    }
    var r := FindFirst(doc, 0, PrefixProbe(s), HeadingProbe(e));
    if r.Some? {
      var sp := r.value;
      assert PrefixEnd(doc, sp.start, s) == Some(sp.bodyStart);
      assert HeadingProbe(e)(doc, sp.bodyEnd) == Some(sp.stop);
      assert HeadingAt(doc, sp.bodyEnd, HeadingEnd(doc, sp.bodyEnd, e).value, e);
      forall k': nat, l': nat | sp.bodyStart <= k' < sp.bodyEnd ensures !HeadingAt(doc, k', l', e) {
        assert HeadingProbe(e)(doc, k').None?;
      }
    } else {
      forall i: nat ensures !HeadingPairAt(doc, i, s, e) {
        if i <= |doc| {
          assert !MatchesAt(doc, i, PrefixProbe(s), HeadingProbe(e));
        } else {
          assert forall p: nat :: !HeadingPrefixAt(doc, i, p, s);
        }
      }
    }
  }

  /**
   * `replace_between_headings`: keeps the first start heading (with its trailing
   * whitespace) that has an end heading after it, replaces what lies between by
   * `replacement + "\n"`, and keeps the end heading and everything after it.
   */
  function ReplaceBetweenHeadings(html: seq<char>, s: string, e: string, replacement: string): (r: (seq<char>, bool))
    ensures r.1 <==> exists i: nat :: HeadingPairAt(html, i, s, e)
    ensures !r.1 ==> r.0 == html
    ensures r.1 ==> exists i: nat, p: nat, k: nat ::
      FirstHeadingPair(html, s, e, i, p, k) && r.0 == html[..p] + replacement + "\n" + html[k..]
  {
    HeadingPairScan(html, s, e);
    match FindFirst(html, 0, PrefixProbe(s), HeadingProbe(e))
    case None => (html, false)
    case Some(sp) =>
      assert HeadingPairAt(html, sp.start, s, e);
      (html[..sp.bodyStart] + replacement + "\n" + html[sp.bodyEnd..], true)
  }

  /** The heading with `s` at `i`, and a succeeding `<h2` lookahead for `fragment` at or after its kept prefix. */
  ghost predicate HeadingH2At(doc: seq<char>, i: nat, s: string, fragment: string) {
    exists p: nat, k: nat :: HeadingPrefixAt(doc, i, p, s) && p <= k && H2Ahead(doc, k, fragment)
  }

  /**
   * The span `doc[p..k]` is the one the h3-to-h2 pattern replaces: `k` is the
   * first `<h2` at or after the kept prefix from which `fragment` and then `</h2>`
   * occur somewhere later.
   */
  ghost predicate FirstHeadingH2(doc: seq<char>, s: string, fragment: string, i: nat, p: nat, k: nat) {
    && HeadingPrefixAt(doc, i, p, s) && p <= k && H2Ahead(doc, k, fragment)
    && (forall k': nat :: p <= k' < k ==> !H2Ahead(doc, k', fragment))
    && (forall i': nat :: i' < i ==> !HeadingH2At(doc, i', s, fragment))
  }

  lemma HeadingH2MatchIff(doc: seq<char>, i: nat, s: string, fragment: string)
    ensures MatchesAt(doc, i, PrefixProbe(s), H2Probe(fragment)) <==> HeadingH2At(doc, i, s, fragment)
  {
    if MatchesAt(doc, i, PrefixProbe(s), H2Probe(fragment)) {
      HeadingH2MatchSound(doc, i, s, fragment);
    }
    if HeadingH2At(doc, i, s, fragment) {
      HeadingH2MatchComplete(doc, i, s, fragment);
    }
  }

  lemma HeadingH2MatchSound(doc: seq<char>, i: nat, s: string, fragment: string)
    requires MatchesAt(doc, i, PrefixProbe(s), H2Probe(fragment))
    ensures HeadingH2At(doc, i, s, fragment)
  {
    var p := PrefixEnd(doc, i, s).value;
    var k: nat :| p <= k <= |doc| && H2Probe(fragment)(doc, k).Some?;
    assert HeadingPrefixAt(doc, i, p, s) && H2Ahead(doc, k, fragment);
  }

  lemma HeadingH2MatchComplete(doc: seq<char>, i: nat, s: string, fragment: string)
    requires HeadingH2At(doc, i, s, fragment)
    ensures MatchesAt(doc, i, PrefixProbe(s), H2Probe(fragment))
  {
    var p: nat, k: nat :| HeadingPrefixAt(doc, i, p, s) && p <= k && H2Ahead(doc, k, fragment);
    assert PrefixEnd(doc, i, s) == Some(p);
    assert LitAt(doc, k, "<h2");
    assert H2Probe(fragment)(doc, k) == Some(k);
  }

  lemma HeadingH2Scan(doc: seq<char>, s: string, fragment: string)
    ensures var r := FindFirst(doc, 0, PrefixProbe(s), H2Probe(fragment));
      && (r.Some? ==>
           r.value.bodyEnd == r.value.stop && FirstHeadingH2(doc, s, fragment, r.value.start, r.value.bodyStart, r.value.bodyEnd))
      && (r.None? ==> forall i: nat :: !HeadingH2At(doc, i, s, fragment))
  {
    forall i: nat ensures MatchesAt(doc, i, PrefixProbe(s), H2Probe(fragment)) <==> HeadingH2At(doc, i, s, fragment) {
      HeadingH2MatchIff(doc, i, s, fragment);
    }
    var r := FindFirst(doc, 0, PrefixProbe(s), H2Probe(fragment));
    if r.Some? {
      var sp := r.value;
      assert PrefixEnd(doc, sp.start, s) == Some(sp.bodyStart);
      assert H2Probe(fragment)(doc, sp.bodyEnd) == Some(sp.stop);
      forall k': nat | sp.bodyStart <= k' < sp.bodyEnd ensures !H2Ahead(doc, k', fragment) {
        assert H2Probe(fragment)(doc, k').None?;
      }
    } else {
      forall i: nat ensures !HeadingH2At(doc, i, s, fragment) {
        if i <= |doc| {
          assert !MatchesAt(doc, i, PrefixProbe(s), H2Probe(fragment));
        } else {
          assert forall p: nat :: !HeadingPrefixAt(doc, i, p, s);
        }
      }
    }
  }

  /**
   * `replace_between_heading_and_h2`: keeps the first start heading (with its
   * trailing whitespace) that is followed by a succeeding `<h2` lookahead,
   * replaces what lies between by `replacement + "\n"`, and keeps the `<h2`
   * and everything after it.
   */
  function ReplaceBetweenHeadingAndH2(html: seq<char>, s: string, fragment: string, replacement: string): (r: (seq<char>, bool))
    ensures r.1 <==> exists i: nat :: HeadingH2At(html, i, s, fragment)
    ensures !r.1 ==> r.0 == html
    ensures r.1 ==> exists i: nat, p: nat, k: nat ::
      FirstHeadingH2(html, s, fragment, i, p, k) && r.0 == html[..p] + replacement + "\n" + html[k..]
  {
    HeadingH2Scan(html, s, fragment);
    match FindFirst(html, 0, PrefixProbe(s), H2Probe(fragment))
    case None => (html, false)
    case Some(sp) =>
      assert HeadingH2At(html, sp.start, s, fragment);
      (html[..sp.bodyStart] + replacement + "\n" + html[sp.bodyEnd..], true)
  }
}
