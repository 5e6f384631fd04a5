/**
 * What `re.subn(pattern, repl, html, count=1)` does with the patterns of
 * build_consent.py, for a pattern of the shape `OPEN [\s\S]*? CLOSE`: try start
 * positions left to right; at the first position where OPEN matches and some
 * later position satisfies CLOSE, take the shortest (non-greedy) body.
 *
 * OPEN and CLOSE are probes: a probe applied at a position says where the piece
 * ends when it matches there (a lookahead ends where it starts).
 */
module Scan {
  import opened Wrappers

  type Probe = (seq<char>, nat) -> Option<nat>

  /** The position of one match: opening `doc[start..bodyStart]`, body up to `bodyEnd`, closing up to `stop`. */
  datatype Span = Span(start: nat, bodyStart: nat, bodyEnd: nat, stop: nat)

  /** The whole pattern `open [\s\S]*? close` matches from `i`. */
  ghost predicate MatchesAt(doc: seq<char>, i: nat, open: Probe, close: Probe) {
    && open(doc, i).Some?
    && exists e: nat :: open(doc, i).value <= e <= |doc| && close(doc, e).Some?
  }

  /** `s` is the match `re` reports when searching from `from`: leftmost start, shortest body. */
  ghost predicate IsFirstMatch(doc: seq<char>, from: nat, open: Probe, close: Probe, s: Span) {
    && from <= s.start
    && open(doc, s.start) == Some(s.bodyStart)
    && s.bodyStart <= s.bodyEnd <= |doc|
    && close(doc, s.bodyEnd) == Some(s.stop)
    && (forall e: nat :: s.bodyStart <= e < s.bodyEnd ==> close(doc, e).None?)
    && (forall i: nat :: from <= i < s.start ==> !MatchesAt(doc, i, open, close))
  }

  /** The smallest `e` in `[from, |doc|]` where `close` matches. */
  function FirstClose(doc: seq<char>, from: nat, close: Probe): (r: Option<nat>)
    ensures r.Some? ==> from <= r.value <= |doc| && close(doc, r.value).Some?
    ensures r.Some? ==> forall e: nat :: from <= e < r.value ==> close(doc, e).None?
    ensures r.None? ==> forall e: nat :: from <= e <= |doc| ==> close(doc, e).None?
    decreases |doc| + 1 - from
  {
    if from > |doc| then None
    else if close(doc, from).Some? then Some(from)
    else FirstClose(doc, from + 1, close)
  }

  /** Searches start positions from `from` upwards for the first match. */
  function FindFirst(doc: seq<char>, from: nat, open: Probe, close: Probe): (r: Option<Span>)
    ensures r.Some? ==> IsFirstMatch(doc, from, open, close, r.value)
    ensures r.None? ==> forall i: nat :: from <= i <= |doc| ==> !MatchesAt(doc, i, open, close)
    decreases |doc| + 1 - from
  {
    if from > |doc| then None
    else match open(doc, from)
      case None => FindFirst(doc, from + 1, open, close)
      case Some(j) =>
        match FirstClose(doc, j, close)
        case Some(e) => Some(Span(from, j, e, close(doc, e).value))
        case None => FindFirst(doc, from + 1, open, close)
  }
}
