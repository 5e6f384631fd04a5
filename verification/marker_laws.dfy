/**
 * Laws of `replace_between_markers` beyond its contract: the normalised block it
 * writes is found again by the same pattern, so a second run with the same
 * replacement changes nothing.
 */
module MarkerLaws {
  import opened Wrappers
  import opened Text
  import opened Tokens
  import opened Matchers

  /** No `<` in `n`: true of the marker names build_consent.py uses. */
  predicate NoLt(n: string) {
    forall k :: 0 <= k < |n| ==> n[k] != '<'
  }

  /** A marker comment over a name without `<` has `<` only at its first position. */
  lemma MarkerLtOnlyFirst(d: seq<char>, p: nat, q: nat, n: string, m: nat)
    requires MarkerAt(d, p, q, n) && NoLt(n) && p < m < q
    ensures d[m] != '<'
  {
    var x: nat :| PadSplit(d, p + 4, x, q - 3, n);
    if m < p + 4 {
      assert Fold(d[p + (m - p)]) == Fold("<!--"[m - p]);
    } else if m < x {
      assert IsSpace(d[m]);
    } else if m < x + |n| {
      assert Fold(d[x + (m - x)]) == Fold(n[m - x]);
    } else if m < q - 3 {
      assert IsSpace(d[m]);
    } else {
      assert Fold(d[(q - 3) + (m - (q - 3))]) == Fold("-->"[m - (q - 3)]);
    }
  }

  /** A marker comment starts with `<` and ends with `>`. */
  lemma MarkerEnds(d: seq<char>, p: nat, q: nat, n: string)
    requires MarkerAt(d, p, q, n)
    ensures d[p] == '<' && d[q - 1] == '>'
  {
    assert Fold(d[p + 0]) == Fold("<!--"[0]);
    assert Fold(d[(q - 3) + 2]) == Fold("-->"[2]);
  }

  /** Whether text is a marker comment depends only on that text: it can be moved to another document. */
  lemma MarkerShift(d1: seq<char>, d2: seq<char>, p: nat, q: nat, p2: nat, n: string)
    requires MarkerAt(d1, p, q, n)
    requires p2 + (q - p) <= |d2|
    requires forall m :: p <= m < q ==> d2[p2 + (m - p)] == d1[m]
    ensures MarkerAt(d2, p2, p2 + (q - p), n)
  {
    var x: nat :| PadSplit(d1, p + 4, x, q - 3, n);
    var q2 := p2 + (q - p);
    var x2 := p2 + (x - p);
    assert LitAt(d2, p2, "<!--") by {
      forall k | 0 <= k < 4 ensures Fold(d2[p2 + k]) == Fold("<!--"[k]) {
        assert d2[p2 + ((p + k) - p)] == d1[p + k];
      }
    }
    assert LitAt(d2, x2, n) by {
      forall k | 0 <= k < |n| ensures Fold(d2[x2 + k]) == Fold(n[k]) {
        assert d2[p2 + ((x + k) - p)] == d1[x + k];
      }
    }
    assert LitAt(d2, q2 - 3, "-->") by {
      forall k | 0 <= k < 3 ensures Fold(d2[q2 - 3 + k]) == Fold("-->"[k]) {
        assert d2[p2 + ((q - 3 + k) - p)] == d1[q - 3 + k];
      }
    }
    assert SpaceBetween(d2, p2 + 4, x2) by {
      forall m | p2 + 4 <= m < x2 ensures IsSpace(d2[m]) {
        assert d2[p2 + ((m - p2 + p) - p)] == d1[m - p2 + p];
      }
    }
    assert SpaceBetween(d2, x2 + |n|, q2 - 3) by {
      forall m | x2 + |n| <= m < q2 - 3 ensures IsSpace(d2[m]) {
        assert d2[p2 + ((m - p2 + p) - p)] == d1[m - p2 + p];
      }
    }
    assert PadSplit(d2, p2 + 4, x2, q2 - 3, n);
  }

  /** The normalised comment is a marker comment for its name. */
  lemma NormalMarkerIsMarker(n: string)
    ensures MarkerAt(NormalMarker(n), 0, |NormalMarker(n)|, n)
  {
    var t := NormalMarker(n);
    assert |t| == |n| + 9;
    assert LitAt(t, 0, "<!--");
    assert LitAt(t, 5, n) by {
      forall k | 0 <= k < |n| ensures t[5 + k] == n[k] { }
    }
    assert PadSplit(t, 4, 5, |t| - 3, n);
    assert LitAt(t, |t| - 3, "-->");
  }

  /** The end of a marker comment is determined by its start. */
  lemma MarkerEndUnique(d: seq<char>, p: nat, q1: nat, q2: nat, n: string)
    requires MarkerAt(d, p, q1, n) && MarkerAt(d, p, q2, n)
    ensures q1 == q2
  {
    assert MarkerEnd(d, p, n) == Some(q1);
  }

  /**
   * `replace_between_markers` is idempotent: running it again with the same
   * replacement returns its own output, provided the marker names contain no `<`
   * and the replacement contains no end-marker comment.
   */
  lemma MarkerIdempotent(doc: seq<char>, s: string, e: string, replacement: string)
    requires NoLt(s) && NoLt(e)
    requires forall p: nat, q: nat :: !MarkerAt(replacement, p, q, e)
    ensures var once := ReplaceBetweenMarkers(doc, s, e, replacement);
      ReplaceBetweenMarkers(once.0, s, e, replacement) == once
  {
    var once := ReplaceBetweenMarkers(doc, s, e, replacement);
    if once.1 {
      var i: nat, j: nat, k: nat, l: nat :| FirstMarkerPair(doc, s, e, i, j, k, l)
        && once.0 == doc[..i] + MarkerBlock(s, e, replacement) + doc[l..];
      BlockFoundAgain(doc, s, e, replacement, i, j, k, l);
    }
  }

  lemma BlockFoundAgain(doc: seq<char>, s: string, e: string, r: string, i: nat, j: nat, k: nat, l: nat)
    requires NoLt(s) && NoLt(e)
    requires forall p: nat, q: nat :: !MarkerAt(r, p, q, e)
    requires FirstMarkerPair(doc, s, e, i, j, k, l)
    ensures var once := doc[..i] + MarkerBlock(s, e, r) + doc[l..];
      ReplaceBetweenMarkers(once, s, e, r) == (once, true)
  {
    var b, pre, post := MarkerBlock(s, e, r), doc[..i], doc[l..];
    var once := pre + b + post;
    BlockIsFirst(doc, s, e, r, i, j, k, l);
    ReplaceAtFirstPair(once, s, e, r, i, i + |NormalMarker(s)|, i + |NormalMarker(s)| + |r| + 2, i + |b|);
    Splice(pre, b, post);
  }

  /** After the first pair is replaced, the written block is the first pair of the result. */
  lemma BlockIsFirst(doc: seq<char>, s: string, e: string, r: string, i: nat, j: nat, k: nat, l: nat)
    requires NoLt(s) && NoLt(e)
    requires forall p: nat, q: nat :: !MarkerAt(r, p, q, e)
    requires FirstMarkerPair(doc, s, e, i, j, k, l)
    ensures var b := MarkerBlock(s, e, r);
      FirstMarkerPair(doc[..i] + b + doc[l..], s, e, i, i + |NormalMarker(s)|, i + |NormalMarker(s)| + |r| + 2, i + |b|)
  {
    var b, pre, post := MarkerBlock(s, e, r), doc[..i], doc[l..];
    Splice(pre, b, post);
    assert forall m :: 0 <= m < i ==> pre[m] == doc[m];
    BlockIsFirstIn(doc, pre + b + post, s, e, r, i, j, k, l);
  }

  /** Cutting a spliced sequence at the splice points gives back its parts. */
  lemma Splice(p: seq<char>, t: seq<char>, q: seq<char>)
    ensures var x := p + t + q;
      && |x| == |p| + |t| + |q|
      && x[..|p|] == p && x[|p| + |t|..] == q
      && (forall m :: 0 <= m < |p| ==> x[m] == p[m])
      && (forall m :: 0 <= m < |t| ==> x[|p| + m] == t[m])
  {
    var x := p + t + q;
    assert x == p + (t + q);
    assert x[|p| + |t|..] == (t + q)[|t|..];
  }

  /** In a document holding the written block where the first pair was, the block is the first pair. */
  lemma BlockIsFirstIn(doc: seq<char>, once: seq<char>, s: string, e: string, r: string,
                     i: nat, j: nat, k: nat, l: nat)
    requires NoLt(s) && NoLt(e)
    requires forall p: nat, q: nat :: !MarkerAt(r, p, q, e)
    requires FirstMarkerPair(doc, s, e, i, j, k, l)
    requires i + |MarkerBlock(s, e, r)| <= |once|
    requires forall m :: 0 <= m < |MarkerBlock(s, e, r)| ==> once[i + m] == MarkerBlock(s, e, r)[m]
    requires forall m :: 0 <= m < i ==> once[m] == doc[m]
    ensures FirstMarkerPair(once, s, e, i, i + |NormalMarker(s)|, i + |NormalMarker(s)| + |r| + 2,
                            i + |MarkerBlock(s, e, r)|)
  {
    var j1 := i + |NormalMarker(s)|;
    var k1 := j1 + |r| + 2;
    BlockLayout(once, s, e, r, i, j1, k1);
    forall k': nat, l': nat | j1 <= k' < k1 ensures !MarkerAt(once, k', l', e) {
      NoEndMarkerInBody(once, e, r, j1, k1, k', l');
    }
    forall i': nat | i' < i ensures !MarkerPairAt(once, i', s, e) {
      NoPairBeforeBlock(doc, once, s, e, i, j, k, l, i');
    }
  }

  /** The matcher replaces exactly the first pair. */
  lemma ReplaceAtFirstPair(doc: seq<char>, s: string, e: string, r: string, i: nat, j: nat, k: nat, l: nat)
    requires FirstMarkerPair(doc, s, e, i, j, k, l)
    ensures ReplaceBetweenMarkers(doc, s, e, r) == (doc[..i] + MarkerBlock(s, e, r) + doc[l..], true)
  {
    assert MarkerPairAt(doc, i, s, e);
    var res := ReplaceBetweenMarkers(doc, s, e, r);
    var i2: nat, j2: nat, k2: nat, l2: nat :| FirstMarkerPair(doc, s, e, i2, j2, k2, l2)
      && res.0 == doc[..i2] + MarkerBlock(s, e, r) + doc[l2..];
    FirstMarkerPairUnique(doc, s, e, i, j, k, l, i2, j2, k2, l2);
  }

  /** At most one span satisfies the first-pair description. */
  lemma FirstMarkerPairUnique(doc: seq<char>, s: string, e: string, i: nat, j: nat, k: nat, l: nat,
                              i2: nat, j2: nat, k2: nat, l2: nat)
    requires FirstMarkerPair(doc, s, e, i, j, k, l) && FirstMarkerPair(doc, s, e, i2, j2, k2, l2)
    ensures i == i2 && j == j2 && k == k2 && l == l2
  {
    assert MarkerPairAt(doc, i, s, e) && MarkerPairAt(doc, i2, s, e);
    assert i == i2;
    MarkerEndUnique(doc, i, j, j2, s);
    assert k == k2;
    MarkerEndUnique(doc, k, l, l2, e);
  }

  /** Where the pieces of the written block sit in a document that holds it at `i`. */
  lemma BlockLayout(once: seq<char>, s: string, e: string, r: string, i: nat, j1: nat, k1: nat)
    requires i + |MarkerBlock(s, e, r)| <= |once|
    requires forall m :: 0 <= m < |MarkerBlock(s, e, r)| ==> once[i + m] == MarkerBlock(s, e, r)[m]
    requires j1 == i + |NormalMarker(s)| && k1 == j1 + |r| + 2
    ensures MarkerAt(once, i, j1, s)
    ensures MarkerAt(once, k1, k1 + |NormalMarker(e)|, e)
    ensures k1 + |NormalMarker(e)| == i + |MarkerBlock(s, e, r)|
    ensures once[j1] == '\n' && once[k1 - 1] == '\n' && once[k1] == '<' && once[i] == '<'
    ensures forall m :: 0 <= m < |r| ==> once[j1 + 1 + m] == r[m]
  {
    BlockPieces(s, e, r);
    StartPlaced(once, s, e, r, i);
    EndPlaced(once, s, e, r, i, k1);
    var b, ns := MarkerBlock(s, e, r), NormalMarker(s);
    forall m | 0 <= m < |r| ensures once[j1 + 1 + m] == r[m] {
      assert once[i + (|ns| + 1 + m)] == b[|ns| + 1 + m];
    }
    assert once[i + |ns|] == b[|ns|];
    assert once[i + (|ns| + |r| + 1)] == b[|ns| + |r| + 1];
  }

  lemma StartPlaced(once: seq<char>, s: string, e: string, r: string, i: nat)
    requires i + |MarkerBlock(s, e, r)| <= |once|
    requires forall m :: 0 <= m < |MarkerBlock(s, e, r)| ==> once[i + m] == MarkerBlock(s, e, r)[m]
    ensures MarkerAt(once, i, i + |NormalMarker(s)|, s) && once[i] == '<'
  {
    BlockPieces(s, e, r);
    var b, ns := MarkerBlock(s, e, r), NormalMarker(s);
    CopiedPiece(once, i, b, 0, ns);
    assert once[i + 0] == ns[0];
    PlacedMarker(once, i, s);
  }

  lemma EndPlaced(once: seq<char>, s: string, e: string, r: string, i: nat, k1: nat)
    requires i + |MarkerBlock(s, e, r)| <= |once|
    requires forall m :: 0 <= m < |MarkerBlock(s, e, r)| ==> once[i + m] == MarkerBlock(s, e, r)[m]
    requires k1 == i + |NormalMarker(s)| + |r| + 2
    ensures k1 + |NormalMarker(e)| == i + |MarkerBlock(s, e, r)|
    ensures MarkerAt(once, k1, k1 + |NormalMarker(e)|, e) && once[k1] == '<'
  {
    BlockPieces(s, e, r);
    var b, ns, ne := MarkerBlock(s, e, r), NormalMarker(s), NormalMarker(e);
    CopiedPiece(once, i, b, |ns| + |r| + 2, ne);
    assert once[k1 + 0] == ne[0];
    PlacedMarker(once, k1, e);
  }

  /** A piece of a block copied into a document at `i` sits at `i` plus its offset in the block. */
  lemma CopiedPiece(once: seq<char>, i: nat, b: seq<char>, off: nat, piece: seq<char>)
    requires i + |b| <= |once| && off + |piece| <= |b|
    requires forall m :: 0 <= m < |b| ==> once[i + m] == b[m]
    requires forall m :: 0 <= m < |piece| ==> b[off + m] == piece[m]
    ensures forall m :: 0 <= m < |piece| ==> once[i + off + m] == piece[m]
  {
    forall m | 0 <= m < |piece| ensures once[i + off + m] == piece[m] {
      assert once[i + (off + m)] == b[off + m];
    }
  }

  /** A normalised marker copied into a document is a marker comment there. */
  lemma PlacedMarker(once: seq<char>, pos: nat, n: string)
    requires pos + |NormalMarker(n)| <= |once|
    requires forall m :: 0 <= m < |NormalMarker(n)| ==> once[pos + m] == NormalMarker(n)[m]
    ensures MarkerAt(once, pos, pos + |NormalMarker(n)|, n)
  {
    NormalMarkerIsMarker(n);
    forall m | 0 <= m < |NormalMarker(n)| ensures once[pos + (m - 0)] == NormalMarker(n)[m] {
      assert once[pos + m] == NormalMarker(n)[m];
    }
    MarkerShift(NormalMarker(n), once, 0, |NormalMarker(n)|, pos, n);
  }

  /** The written block is the start marker, the replacement between newlines, and the end marker. */
  lemma BlockPieces(s: string, e: string, r: string)
    ensures var b, ns, ne := MarkerBlock(s, e, r), NormalMarker(s), NormalMarker(e);
      && |b| == |ns| + |r| + 2 + |ne|
      && (forall m :: 0 <= m < |ns| ==> b[m] == ns[m])
      && b[|ns|] == '\n' && b[|ns| + |r| + 1] == '\n'
      && (forall m :: 0 <= m < |r| ==> b[|ns| + 1 + m] == r[m])
      && (forall m :: 0 <= m < |ne| ==> b[|ns| + |r| + 2 + m] == ne[m])
      && ns[0] == '<' && ne[0] == '<'
  {
    var b, ns, ne := MarkerBlock(s, e, r), NormalMarker(s), NormalMarker(e);
    Concat5(ns, "\n", r, "\n", ne);
    assert ns == "<!-- " + s + " -->" && ne == "<!-- " + e + " -->";
  }

  /** Where each of five concatenated pieces sits. */
  lemma Concat5(a: seq<char>, b: seq<char>, c: seq<char>, d: seq<char>, f: seq<char>)
    ensures var x := a + b + c + d + f;
      && |x| == |a| + |b| + |c| + |d| + |f|
      && (forall m :: 0 <= m < |a| ==> x[m] == a[m])
      && (forall m :: 0 <= m < |b| ==> x[|a| + m] == b[m])
      && (forall m :: 0 <= m < |c| ==> x[|a| + |b| + m] == c[m])
      && (forall m :: 0 <= m < |d| ==> x[|a| + |b| + |c| + m] == d[m])
      && (forall m :: 0 <= m < |f| ==> x[|a| + |b| + |c| + |d| + m] == f[m])
  {
    var ab, abc, abcd := a + b, a + b + c, a + b + c + d;
    assert forall m :: 0 <= m < |a| ==> ab[m] == a[m];
    assert forall m :: 0 <= m < |ab| ==> abc[m] == ab[m];
    assert forall m :: 0 <= m < |abc| ==> abcd[m] == abc[m];
  }

  /** Inside the block, between its markers, only the replacement text lies. */
  lemma NoEndMarkerInBody(once: seq<char>, e: string, r: string, j1: nat, k1: nat, k': nat, l': nat)
    requires NoLt(e) && forall p: nat, q: nat :: !MarkerAt(r, p, q, e)
    requires k1 == j1 + |r| + 2 && k1 < |once|
    requires once[j1] == '\n' && once[k1 - 1] == '\n' && once[k1] == '<'
    requires forall m :: 0 <= m < |r| ==> once[j1 + 1 + m] == r[m]
    requires j1 <= k' < k1
    ensures !MarkerAt(once, k', l', e)
  {
    if MarkerAt(once, k', l', e) {
      MarkerEnds(once, k', l', e);
      if k1 < l' {
        MarkerLtOnlyFirst(once, k', l', e, k1);
        assert false;
      }
      MarkerShift(once, r, k', l', k' - (j1 + 1), e);
      assert false;
    }
  }

  /** A start marker before the block would have matched in the original document. */
  lemma NoPairBeforeBlock(doc: seq<char>, once: seq<char>, s: string, e: string,
                          i: nat, j: nat, k: nat, l: nat, i': nat)
    requires NoLt(s) && FirstMarkerPair(doc, s, e, i, j, k, l)
    requires i < |once| && once[i] == '<' && forall m :: 0 <= m < i ==> once[m] == doc[m]
    requires i' < i
    ensures !MarkerPairAt(once, i', s, e)
  {
    if MarkerPairAt(once, i', s, e) {
      var j': nat, k': nat, l': nat :| MarkerAt(once, i', j', s) && j' <= k' && MarkerAt(once, k', l', e);
      if i < j' {
        MarkerLtOnlyFirst(once, i', j', s, i);
        assert false;
      }
      MarkerShift(once, doc, i', j', i', s);
      assert MarkerPairAt(doc, i', s, e);
      assert false;
    }
  }
}
