/**
 * Character classes and literal matching, as Python's `re` module applies them
 * to `str` patterns compiled with `re.IGNORECASE`.
 */
module Text {
  import opened Wrappers

  /** Python's `\s` on `str`: exactly the characters for which `str.isspace()` holds. */
  predicate IsSpace(c: char) {
    ('\t' <= c <= '\r') || ('\U{1C}' <= c <= '\U{1F}') || c == ' '
    || c == '\U{85}' || c == '\U{A0}' || c == '\U{1680}'
    || ('\U{2000}' <= c <= '\U{200A}') || c == '\U{2028}' || c == '\U{2029}'
    || c == '\U{202F}' || c == '\U{205F}' || c == '\U{3000}'
  }

  /** Upper-case letters the model folds: ASCII `A`-`Z` and Latin-1 `À`-`Þ` except `×`. */
  predicate IsUpper(c: char) {
    ('A' <= c <= 'Z') || ('\U{C0}' <= c <= '\U{DE}' && c != '\U{D7}')
  }

  /**
   * Case fold used for `re.IGNORECASE` and for `str.lower()`. It covers ASCII and
   * Latin-1 (so `Ä`/`ä` and `Ü`/`ü` of the German anchors fold together); it is an
   * approximation of Python's full Unicode folding.
   */
  function Fold(c: char): char {
    if IsUpper(c) then (c as int + 32) as char else c
  }

  /** `str.lower()` under the same approximation. */
  function Lower(s: string): (r: string)
    ensures |r| == |s|
    ensures forall k :: 0 <= k < |s| ==> r[k] == Fold(s[k])
  {
    seq(|s|, k requires 0 <= k < |s| => Fold(s[k]))
  }

  /** Folding never turns a space into a non-space or back, and spaces only fold to themselves. */
  lemma FoldSpace(c: char, d: char)
    requires Fold(c) == Fold(d)
    ensures IsSpace(c) <==> IsSpace(d)
    ensures IsSpace(d) ==> c == d
  {
  }

  /** The literal `lit` occurs at `p` in `doc`, compared case-insensitively. */
  predicate LitAt(doc: seq<char>, p: nat, lit: string) {
    p + |lit| <= |doc| && forall k :: 0 <= k < |lit| ==> Fold(doc[p + k]) == Fold(lit[k])
  }

  /** `doc[a..b]` consists of whitespace only. */
  predicate SpaceBetween(doc: seq<char>, a: nat, b: nat) {
    a <= b <= |doc| && forall k :: a <= k < b ==> IsSpace(doc[k])
  }

  /** `doc[a..b]` holds no `>`: what `[^>]*` may cover. */
  predicate GtFree(doc: seq<char>, a: nat, b: nat) {
    b <= |doc| && forall k :: a <= k < b ==> doc[k] != '>'
  }

  /** Greedy `\s*` from `p`: the end of the longest whitespace run starting there. */
  function SkipSpace(doc: seq<char>, p: nat): (q: nat)
    requires p <= |doc|
    ensures SpaceBetween(doc, p, q)
    ensures q < |doc| ==> !IsSpace(doc[q])
    decreases |doc| - p
  {
    if p < |doc| && IsSpace(doc[p]) then SkipSpace(doc, p + 1) else p
  }

  /** A whitespace run that stops at a non-space (or at the end) is the one `SkipSpace` finds. */
  lemma SkipSpaceStops(doc: seq<char>, p: nat, z: nat)
    requires SpaceBetween(doc, p, z)
    requires z < |doc| ==> !IsSpace(doc[z])
    ensures SkipSpace(doc, p) == z
  {
  }

  /** First position at or after `p` holding `c`. */
  function FindChar(doc: seq<char>, p: nat, c: char): (r: Option<nat>)
    ensures r.Some? ==> p <= r.value < |doc| && doc[r.value] == c
    ensures r.Some? ==> forall k :: p <= k < r.value ==> doc[k] != c
    ensures r.None? ==> forall k :: p <= k < |doc| ==> doc[k] != c
    decreases |doc| - p
  {
    if p >= |doc| then None
    else if doc[p] == c then Some(p)
    else FindChar(doc, p + 1, c)
  }

  /** First position at or after `p` where `lit` occurs (case-insensitively). */
  function Find(doc: seq<char>, p: nat, lit: string): (r: Option<nat>)
    ensures r.Some? ==> p <= r.value && LitAt(doc, r.value, lit)
    ensures r.Some? ==> forall q :: p <= q < r.value ==> !LitAt(doc, q, lit)
    ensures r.None? ==> forall q :: p <= q ==> !LitAt(doc, q, lit)
    decreases |doc| + 1 - p
  {
    if p > |doc| then None
    else if LitAt(doc, p, lit) then Some(p)
    else Find(doc, p + 1, lit)
  }
}
