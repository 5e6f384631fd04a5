/**
 * The fixed pieces of the four patterns in build_consent.py, each given twice:
 * declaratively (what text the regex piece accepts) and as a computing scan,
 * with a proof that the two agree.
 *
 *   marker comment     <!--\s*NAME\s*-->
 *   h3 heading         <h3[^>]*>\s*TEXT\s*</h3>
 *   heading prefix     the heading followed by the greedy \s*
 *   boundary           the after-heading lookahead, including \Z
 *   h2 lookahead       <h2[^>]*>[\s\S]*?FRAGMENT[\s\S]*?</h2>
 */
module Tokens {
  import opened Wrappers
  import opened Text

  /** `\s*N\s*` matches exactly `doc[a..y]`, with `N` starting at `x`. */
  predicate PadSplit(doc: seq<char>, a: nat, x: nat, y: nat, n: string) {
    a <= x && x + |n| <= y && SpaceBetween(doc, a, x) && LitAt(doc, x, n)
    && SpaceBetween(doc, x + |n|, y)
  }

  /** `\s*N\s*` matches exactly `doc[a..y]`. */
  ghost predicate Padded(doc: seq<char>, a: nat, y: nat, n: string) {
    exists x: nat :: PadSplit(doc, a, x, y, n)
  }

  /** Number of leading whitespace characters of `n`. */
  function LeadSpace(n: string): (m: nat)
    ensures m <= |n|
    ensures forall k :: 0 <= k < m ==> IsSpace(n[k])
    ensures m < |n| ==> !IsSpace(n[m])
  {
    if |n| > 0 && IsSpace(n[0]) then 1 + LeadSpace(n[1..]) else 0
  }

  /**
   * Two matches of `\s*N\s*` from the same start: the shorter one ends on a
   * whitespace character of the longer one. Hence a terminator that begins with
   * a non-space fixes where the padding ends.
   */
  lemma {:induction false} PaddedPrefix(doc: seq<char>, a: nat, x1: nat, y1: nat, x2: nat, y2: nat, n: string)
    requires PadSplit(doc, a, x1, y1, n) && PadSplit(doc, a, x2, y2, n) && y1 < y2
    ensures IsSpace(doc[y1])
  {
    var m := LeadSpace(n);
    AnchorLead(doc, a, x1, y1, n);
    AnchorLead(doc, a, x2, y2, n);
    if m < |n| {
      SkipSpaceStops(doc, a, x1 + m);
      SkipSpaceStops(doc, a, x2 + m);
    }
  }

  /**
   * Where a split of `\s*N\s*` starts: the whitespace from `a` runs through the
   * leading spaces of `N`; a non-space of `N` stops it.
   */
  lemma AnchorLead(doc: seq<char>, a: nat, x: nat, y: nat, n: string)
    requires PadSplit(doc, a, x, y, n)
    ensures SpaceBetween(doc, a, x + LeadSpace(n))
    ensures LeadSpace(n) < |n| ==> !IsSpace(doc[x + LeadSpace(n)])
    ensures LeadSpace(n) == |n| ==> SpaceBetween(doc, a, y)
  {
    var m := LeadSpace(n);
    forall k | x <= k < x + m ensures IsSpace(doc[k]) {
      FoldSpace(doc[x + (k - x)], n[k - x]);
    }
    if m < |n| {
      FoldSpace(doc[x + m], n[m]);
    }
  }

  /** A padded anchor followed by a terminator that starts with a non-space has one end. */
  lemma PaddedEndUnique(doc: seq<char>, a: nat, y1: nat, y2: nat, n: string, t: string)
    requires |t| > 0 && !IsSpace(t[0])
    requires Padded(doc, a, y1, n) && LitAt(doc, y1, t)
    requires Padded(doc, a, y2, n) && LitAt(doc, y2, t)
    ensures y1 == y2
  {
    var x1 :| PadSplit(doc, a, x1, y1, n);
    var x2 :| PadSplit(doc, a, x2, y2, n);
    if y1 < y2 {
      PaddedPrefix(doc, a, x1, y1, x2, y2, n);
      FoldSpace(doc[y1 + 0], t[0]);
    } else if y2 < y1 {
      PaddedPrefix(doc, a, x2, y2, x1, y1, n);
      FoldSpace(doc[y2 + 0], t[0]);
    }
  }

  /**
   * Scans for `\s*N\s*` followed by `t`, starting at `a`, trying each position `x`
   * of `N` within the leading whitespace run. Returns where the terminator begins.
   */
  function PadEndFrom(doc: seq<char>, a: nat, x: nat, n: string, t: string): (r: Option<nat>)
    requires a <= x <= |doc| && SpaceBetween(doc, a, x)
    ensures r.Some? ==> Padded(doc, a, r.value, n) && LitAt(doc, r.value, t)
    decreases |doc| - x
  {
    if LitAt(doc, x, n) && LitAt(doc, SkipSpace(doc, x + |n|), t) then
      var y := SkipSpace(doc, x + |n|);
      assert PadSplit(doc, a, x, y, n);
      Some(y)
    else if x < |doc| && IsSpace(doc[x]) then
      PadEndFrom(doc, a, x + 1, n, t)
    else
      None
  }

  /** The scan misses no split whose anchor starts at or after `x`. */
  lemma {:induction false} PadEndFromComplete(doc: seq<char>, a: nat, x: nat, n: string, t: string, x': nat, y: nat)
    requires ScanBefore(doc, a, x, n, t, x', y)
    ensures PadEndFrom(doc, a, x, n, t).Some?
    decreases x' - x
  {
    if x == x' {
      PadEndAtSplit(doc, a, x, y, n, t);
    } else {
      ScanAdvance(doc, a, x, n, t, x', y);
      PadEndFromComplete(doc, a, x + 1, n, t, x', y);
      PadEndStep(doc, a, x, n, t);
    }
  }

  /** The scan is at `x`, still inside the whitespace before the split at `x'` whose terminator `t` is at `y`. */
  predicate ScanBefore(doc: seq<char>, a: nat, x: nat, n: string, t: string, x': nat, y: nat) {
    && a <= x <= x' && x <= |doc| && SpaceBetween(doc, a, x)
    && |t| > 0 && !IsSpace(t[0])
    && PadSplit(doc, a, x', y, n) && LitAt(doc, y, t)
  }

  /** Short of the split, the scan is on whitespace and may move one step on. */
  lemma ScanAdvance(doc: seq<char>, a: nat, x: nat, n: string, t: string, x': nat, y: nat)
    requires ScanBefore(doc, a, x, n, t, x', y) && x != x'
    ensures x < |doc| && IsSpace(doc[x]) && ScanBefore(doc, a, x + 1, n, t, x', y)
  {
  }

  /** At the split itself the scan stops with the terminator's position. */
  lemma PadEndAtSplit(doc: seq<char>, a: nat, x: nat, y: nat, n: string, t: string)
    requires |t| > 0 && !IsSpace(t[0])
    requires PadSplit(doc, a, x, y, n) && LitAt(doc, y, t)
    ensures PadEndFrom(doc, a, x, n, t) == Some(y)
  {
    FoldSpace(doc[y + 0], t[0]);
    SkipSpaceStops(doc, x + |n|, y);
  }

  /** On whitespace, a scan that succeeds from the next position succeeds from here. */
  lemma PadEndStep(doc: seq<char>, a: nat, x: nat, n: string, t: string)
    requires a <= x < |doc| && SpaceBetween(doc, a, x + 1) && IsSpace(doc[x])
    requires PadEndFrom(doc, a, x + 1, n, t).Some?
    ensures PadEndFrom(doc, a, x, n, t).Some?
  {
  }

  /** The scan from `a` finds exactly the end of the padding before `t`. */
  lemma PadEndIff(doc: seq<char>, a: nat, n: string, t: string)
    requires a <= |doc| && |t| > 0 && !IsSpace(t[0])
    ensures forall y: nat :: PadEndFrom(doc, a, a, n, t) == Some(y) <==> Padded(doc, a, y, n) && LitAt(doc, y, t)
  {
    forall y: nat | Padded(doc, a, y, n) && LitAt(doc, y, t)
      ensures PadEndFrom(doc, a, a, n, t) == Some(y)
    {
      var x' :| PadSplit(doc, a, x', y, n);
      assert ScanBefore(doc, a, a, n, t, x', y);
      PadEndFromComplete(doc, a, a, n, t, x', y);
      PaddedEndUnique(doc, a, PadEndFrom(doc, a, a, n, t).value, y, n, t);
    }
  }

  /** `<!--\s*NAME\s*-->` matches exactly `doc[i..j]`. */
  ghost predicate MarkerAt(doc: seq<char>, i: nat, j: nat, name: string) {
    i + 7 <= j <= |doc| && LitAt(doc, i, "<!--") && Padded(doc, i + 4, j - 3, name)
    && LitAt(doc, j - 3, "-->")
  }

  /** End of the marker comment for `name` starting at `i`, if there is one. */
  function MarkerEnd(doc: seq<char>, i: nat, name: string): (r: Option<nat>)
    ensures forall j: nat :: r == Some(j) <==> MarkerAt(doc, i, j, name)
  {
    if LitAt(doc, i, "<!--") then
      PadEndIff(doc, i + 4, name, "-->");
      match PadEndFrom(doc, i + 4, i + 4, name, "-->")
      case Some(y) => Some(y + 3)
      case None => None
    else
      None
  }

  /** The `<h3[^>]*>` part of a heading starting at `i` closes at `g`. */
  predicate TagCloses(doc: seq<char>, i: nat, g: nat) {
    i + 3 <= g < |doc| && doc[g] == '>' && GtFree(doc, i + 3, g)
  }

  /** `<h3[^>]*>\s*TEXT\s*</h3>` matches exactly `doc[i..j]`. */
  ghost predicate HeadingAt(doc: seq<char>, i: nat, j: nat, text: string) {
    i + 9 <= j <= |doc| && LitAt(doc, i, "<h3") && LitAt(doc, j - 5, "</h3>")
    && exists g: nat :: TagCloses(doc, i, g) && g + 6 <= j && Padded(doc, g + 1, j - 5, text)
  }

  /** End of the `<h3>` heading with `text` starting at `i`, if there is one. */
  function HeadingEnd(doc: seq<char>, i: nat, text: string): (r: Option<nat>)
    ensures forall j: nat :: r == Some(j) <==> HeadingAt(doc, i, j, text)
  {
    if LitAt(doc, i, "<h3") then
      match FindChar(doc, i + 3, '>')
      case None =>
        assert forall g: nat :: !TagCloses(doc, i, g);
        None
      case Some(g) =>
        HeadingAfterTag(doc, i, g, text);
        match PadEndFrom(doc, g + 1, g + 1, text, "</h3>")
        case Some(y) => Some(y + 5)
        case None => None
    else
      None
  }

  /** Once the tag is known to close at `g`, the heading end is the padding end plus `</h3>`. */
  lemma HeadingAfterTag(doc: seq<char>, i: nat, g: nat, text: string)
    requires LitAt(doc, i, "<h3") && TagCloses(doc, i, g)
    ensures forall j: nat :: HeadingAt(doc, i, j, text) <==>
      j >= 5 && PadEndFrom(doc, g + 1, g + 1, text, "</h3>") == Some(j - 5)
  {
    forall j: nat ensures HeadingAt(doc, i, j, text) <==>
      j >= 5 && PadEndFrom(doc, g + 1, g + 1, text, "</h3>") == Some(j - 5)
    {
      if HeadingAt(doc, i, j, text) {
        HeadingScanned(doc, i, g, j, text);
      }
      if j >= 5 && PadEndFrom(doc, g + 1, g + 1, text, "</h3>") == Some(j - 5) {
        ScannedHeading(doc, i, g, j, text);
      }
    }
  }

  /** A heading whose tag closes at `g` is found by the scan after `g`. */
  lemma HeadingScanned(doc: seq<char>, i: nat, g: nat, j: nat, text: string)
    requires LitAt(doc, i, "<h3") && TagCloses(doc, i, g) && HeadingAt(doc, i, j, text)
    ensures j >= 5 && PadEndFrom(doc, g + 1, g + 1, text, "</h3>") == Some(j - 5)
  {
    HeadingAtTag(doc, i, g, j, text);
    PadEndIff(doc, g + 1, text, "</h3>");
  }

  /** A heading at `i` pads its text between the `>` at `g` and its `</h3>`. */
  lemma HeadingAtTag(doc: seq<char>, i: nat, g: nat, j: nat, text: string)
    requires TagCloses(doc, i, g) && HeadingAt(doc, i, j, text)
    ensures g + 6 <= j && Padded(doc, g + 1, j - 5, text) && LitAt(doc, j - 5, "</h3>")
  {
    TagClosesUnique(doc, i, g);
  }

  /** What the scan after `g` finds ends a heading. */
  lemma ScannedHeading(doc: seq<char>, i: nat, g: nat, j: nat, text: string)
    requires LitAt(doc, i, "<h3") && TagCloses(doc, i, g)
    requires j >= 5 && PadEndFrom(doc, g + 1, g + 1, text, "</h3>") == Some(j - 5)
    ensures HeadingAt(doc, i, j, text)
  {
    PadEndIff(doc, g + 1, text, "</h3>");
    var x: nat :| PadSplit(doc, g + 1, x, j - 5, text);
  }

  /** The `>` closing an `<h3` tag is the first `>` after it. */
  lemma TagClosesUnique(doc: seq<char>, i: nat, g: nat)
    requires TagCloses(doc, i, g)
    ensures forall g': nat :: TagCloses(doc, i, g') ==> g' == g
  {
  }

  /** `<h3[^>]*>\s*TEXT\s*</h3>\s*` matches `doc[i..p]`, the trailing `\s*` taken greedily. */
  ghost predicate HeadingPrefixAt(doc: seq<char>, i: nat, p: nat, text: string) {
    exists j: nat :: HeadingAt(doc, i, j, text) && p == SkipSpace(doc, j)
  }

  /** End of the kept prefix (heading plus following whitespace) starting at `i`. */
  function PrefixEnd(doc: seq<char>, i: nat, text: string): (r: Option<nat>)
    ensures forall p: nat :: r == Some(p) <==> HeadingPrefixAt(doc, i, p, text)
    ensures r.Some? ==> i < r.value <= |doc|
  {
    match HeadingEnd(doc, i, text)
    case Some(j) => Some(SkipSpace(doc, j))
    case None => None
  }

  /**
   * The lookahead of the after-heading pattern:
   * `<h[23][^>]*>|</section>|</div>|<button|<br|</body>|</html>|\Z`.
   */
  predicate Boundary(doc: seq<char>, e: nat) {
    e == |doc|
    || (LitAt(doc, e, "<h2") && '>' in doc[e + 3..])
    || (LitAt(doc, e, "<h3") && '>' in doc[e + 3..])
    || LitAt(doc, e, "</section>") || LitAt(doc, e, "</div>") || LitAt(doc, e, "<button")
    || LitAt(doc, e, "<br") || LitAt(doc, e, "</body>") || LitAt(doc, e, "</html>")
  }

  /**
   * The lookahead `<h2[^>]*>[\s\S]*?FRAGMENT[\s\S]*?</h2>` succeeds at `e`: an `<h2`
   * whose tag closes at `g`, then the fragment somewhere after `g`, then `</h2>`
   * somewhere after the fragment (not necessarily within the same element).
   */
  ghost predicate H2Ahead(doc: seq<char>, e: nat, fragment: string) {
    && LitAt(doc, e, "<h2")
    && exists g: nat, f: nat, c: nat :: H2Witness(doc, e, g, f, c, fragment)
  }

  /** The positions that make the `<h2` lookahead succeed. */
  predicate H2Witness(doc: seq<char>, e: nat, g: nat, f: nat, c: nat, fragment: string) {
    && TagCloses(doc, e, g) && g < f && f + |fragment| <= c
    && LitAt(doc, f, fragment) && LitAt(doc, c, "</h2>")
  }

  /** Decides the `<h2` lookahead by three successive scans. */
  function H2AheadCheck(doc: seq<char>, e: nat, fragment: string): (r: bool)
    ensures r <==> H2Ahead(doc, e, fragment)
  {
    if !LitAt(doc, e, "<h2") then false
    else match FindChar(doc, e + 3, '>')
      case None => false
      case Some(g) =>
        assert forall g': nat :: TagCloses(doc, e, g') ==> g' == g;
        match Find(doc, g + 1, fragment)
        case None => false
        case Some(f) =>
          match Find(doc, f + |fragment|, "</h2>")
          case None => false
          case Some(c) =>
            assert H2Witness(doc, e, g, f, c, fragment);
            true
  }
}
