/**
 * The per-site replacement policy of `perform_conditional_replacements`: three
 * optional fields, each switched on by a yes/no flag and filled from a text key,
 * each tried against a fixed chain of region matchers, applied in a fixed order.
 */
module Policy {
  import opened Wrappers
  import opened Text
  import opened Tokens
  import opened Matchers

  /** One site's entry of the mapping file. A JSON `null` is modelled as an absent key. */
  type Config = map<string, string>

  datatype Field = Reimbursement | DataProtection | Complaint

  /** A way of locating the region a field's text goes into. */
  datatype Strategy =
    | Markers(start: string, stop: string)
    | AfterHeading(heading: string)
    | BetweenHeadings(first: string, next: string)
    | HeadingToH2(heading: string, fragment: string)

  /** A field: its flag key, its text key and the strategies tried, in order. */
  datatype Rule = Rule(field: Field, flagKey: string, textKey: string, chain: seq<Strategy>)

  datatype Problem = MissingText | RegionNotFound

  /** A logged warning: which site, which field, what went wrong. */
  datatype Warning = Warning(site: string, field: Field, problem: Problem)

  // ---------------------------------------------------------------- the rules

  const ReimbursementFlag := "1a_individual_reimbursement"
  const ReimbursementText := "1a_individual_reimbursement_text"
  const DataProtectionFlag := "1b_individual_data_protection"
  const DataProtectionText := "1b_individual_data_protection_text"
  const ComplaintFlag := "1c_individual_complain"
  const ComplaintText := "1c_individual_complain_text"

  /** "Aufwandsentschädigung" */
  const ReimbursementHeading := "Aufwandsentsch\U{E4}digung"
  /** "Einwilligungserklärung" */
  const ConsentFragment := "Einwilligungserkl\U{E4}rung"

  const ReimbursementRule := Rule(Reimbursement, ReimbursementFlag, ReimbursementText,
    [Markers("REIMBURSEMENT_START", "REIMBURSEMENT_END"), AfterHeading(ReimbursementHeading)])

  const DataProtectionRule := Rule(DataProtection, DataProtectionFlag, DataProtectionText,
    [BetweenHeadings("Verantwortliche", "Rechtsgrundlage"), Markers("DPO_START", "DPO_END"),
     AfterHeading("Verantwortliche")])

  const ComplaintRule := Rule(Complaint, ComplaintFlag, ComplaintText,
    [HeadingToH2("Beschwerderecht", ConsentFragment), Markers("COMPLAIN_START", "COMPLAIN_END"),
     AfterHeading("Beschwerderecht")])

  /** The fields in the order the site's document passes through them. */
  const Rules := [ReimbursementRule, DataProtectionRule, ComplaintRule]

  // ---------------------------------------------------------------- flags and texts

  /** `str(cfg.get(key, "no")).lower() == "yes"`. */
  predicate Active(cfg: Config, key: string) {
    key in cfg && Lower(cfg[key]) == "yes"
  }

  /** The three-letter word `yes` in any capitalisation. */
  predicate IsYes(v: string) {
    && |v| == 3
    && (v[0] == 'y' || v[0] == 'Y')
    && (v[1] == 'e' || v[1] == 'E')
    && (v[2] == 's' || v[2] == 'S')
  }

  /** A flag is on exactly when its value is `yes` up to capitalisation; anything else, or no value, is off. */
  lemma ActiveIsYes(cfg: Config, key: string)
    ensures Active(cfg, key) <==> key in cfg && IsYes(cfg[key])
  {
    if key in cfg && |cfg[key]| == 3 {
      var v := cfg[key];
      if Lower(v) == "yes" {
        assert Fold(v[0]) == 'y' && Fold(v[1]) == 'e' && Fold(v[2]) == 's';
      }
    }
  }

  /** The field's text, unless it is absent or empty (both falsy in the source). */
  function TextOf(cfg: Config, key: string): (r: Option<string>)
    ensures r.Some? <==> key in cfg && |cfg[key]| > 0
    ensures r.Some? ==> r.value == cfg[key]
  {
    if key in cfg && cfg[key] != "" then Some(cfg[key]) else None
  }

  // ---------------------------------------------------------------- strategies

  /** The strategy's pattern occurs in `html`. */
  ghost predicate Locates(html: seq<char>, st: Strategy) {
    match st
    case Markers(s, e) => exists i: nat :: MarkerPairAt(html, i, s, e)
    case AfterHeading(h) => exists i: nat, j: nat :: HeadingAt(html, i, j, h)
    case BetweenHeadings(s, e) => exists i: nat :: HeadingPairAt(html, i, s, e)
    case HeadingToH2(h, f) => exists i: nat :: HeadingH2At(html, i, h, f)
  }

  /** One matcher call: the rewritten document and whether the pattern was found. */
  function Attempt(html: seq<char>, st: Strategy, text: string): (seq<char>, bool) {
    match st
    case Markers(s, e) => ReplaceBetweenMarkers(html, s, e, text)
    case AfterHeading(h) => ReplaceSectionAfterHeading(html, h, text)
    case BetweenHeadings(s, e) => ReplaceBetweenHeadings(html, s, e, text)
    case HeadingToH2(h, f) => ReplaceBetweenHeadingAndH2(html, h, f, text)
  }

  /** A strategy reports success exactly when its pattern occurs, and leaves the document alone otherwise. */
  lemma AttemptSpec(html: seq<char>, st: Strategy, text: string)
    ensures Attempt(html, st, text).1 <==> Locates(html, st)
    ensures !Attempt(html, st, text).1 ==> Attempt(html, st, text).0 == html
  {
    match st
    case Markers(s, e) =>
    case AfterHeading(h) =>
    case BetweenHeadings(s, e) =>
    case HeadingToH2(h, f) =>
  }

  /** Strategy `n` is the first of `chain` whose pattern occurs in `html`. */
  ghost predicate FirstLocating(html: seq<char>, chain: seq<Strategy>, n: nat) {
    && n < |chain|
    && Locates(html, chain[n])
    && forall m :: 0 <= m < n ==> !Locates(html, chain[m])
  }

  /** Try the strategies in order and keep the first that finds its region. */
  function TryChain(html: seq<char>, chain: seq<Strategy>, text: string): (r: (seq<char>, bool))
    ensures r.1 ==> exists n :: 0 <= n < |chain| && r == Attempt(html, chain[n], text)
    ensures !r.1 ==> r.0 == html && forall n :: 0 <= n < |chain| ==> !Attempt(html, chain[n], text).1
    decreases |chain|
  {
    if |chain| == 0 then (html, false)
    else
      var a := Attempt(html, chain[0], text);
      if a.1 then a
      else
        var t := TryChain(html, chain[1..], text);
        ShiftChain(st => Attempt(html, st, text), html, chain, t);
        t
  }

  /** What a chain's tail promises, restated for the whole chain once its head `try` has missed. */
  lemma ShiftChain<S>(try: S -> (seq<char>, bool), html: seq<char>, chain: seq<S>, t: (seq<char>, bool))
    requires |chain| > 0 && !try(chain[0]).1
    requires t.1 ==> exists n :: 0 <= n < |chain[1..]| && t == try(chain[1..][n])
    requires !t.1 ==> t.0 == html && forall n :: 0 <= n < |chain[1..]| ==> !try(chain[1..][n]).1
    ensures t.1 ==> exists n :: 0 <= n < |chain| && t == try(chain[n])
    ensures !t.1 ==> t.0 == html && forall n :: 0 <= n < |chain| ==> !try(chain[n]).1
  {
    if t.1 {
      var n :| 0 <= n < |chain[1..]| && t == try(chain[1..][n]);
      assert chain[1..][n] == chain[n + 1];
    } else {
      forall n | 0 < n < |chain| ensures !try(chain[n]).1 {
        assert chain[n] == chain[1..][n - 1];
      }
    }
  }

  /** `ChainSpec` holds of every chain. */
  lemma {:induction false} TryChainSpec(html: seq<char>, chain: seq<Strategy>, text: string)
    ensures ChainSpec(html, chain, text)
    decreases |chain|
  {
    if |chain| > 0 {
      AttemptSpec(html, chain[0], text);
      if Attempt(html, chain[0], text).1 {
        ChainHeadHits(html, chain, text);
      } else {
        TryChainSpec(html, chain[1..], text);
        ChainHeadMisses(html, chain, text);
      }
    }
  }

  /**
   * The chain succeeds exactly when some strategy's pattern occurs, leaves the
   * document alone when none does, and otherwise does what the first one that
   * applies does.
   */
  ghost predicate ChainSpec(html: seq<char>, chain: seq<Strategy>, text: string) {
    var r := TryChain(html, chain, text);
    && (r.1 <==> exists n :: 0 <= n < |chain| && Locates(html, chain[n]))
    && (!r.1 ==> r.0 == html)
    && (r.1 ==> exists n: nat :: FirstLocating(html, chain, n) && r.0 == Attempt(html, chain[n], text).0)
  }

  lemma ChainHeadHits(html: seq<char>, chain: seq<Strategy>, text: string)
    requires |chain| > 0 && Attempt(html, chain[0], text).1
    ensures ChainSpec(html, chain, text)
  {
    AttemptSpec(html, chain[0], text);
    assert FirstLocating(html, chain, 0);
  }

  lemma ChainHeadMisses(html: seq<char>, chain: seq<Strategy>, text: string)
    requires |chain| > 0 && !Attempt(html, chain[0], text).1
    requires ChainSpec(html, chain[1..], text)
    ensures ChainSpec(html, chain, text)
  {
    var r := TryChain(html, chain[1..], text);
    if r.1 {
      var n: nat :| FirstLocating(html, chain[1..], n) && r.0 == Attempt(html, chain[1..][n], text).0;
      TailHits(html, chain, text, n);
    } else {
      TailMisses(html, chain, text);
    }
  }

  /** The head misses and strategy `n` of the tail is the first that applies there. */
  lemma TailHits(html: seq<char>, chain: seq<Strategy>, text: string, n: nat)
    requires |chain| > 0 && !Attempt(html, chain[0], text).1
    requires TryChain(html, chain[1..], text).1 && FirstLocating(html, chain[1..], n)
    requires TryChain(html, chain[1..], text).0 == Attempt(html, chain[1..][n], text).0
    ensures ChainSpec(html, chain, text)
  {
    AttemptSpec(html, chain[0], text);
    FirstShifts(html, chain, n);
    assert chain[1..][n] == chain[n + 1];
  }

  /** With the head not applying, the first applicable strategy of the tail is the chain's, one further on. */
  lemma FirstShifts(html: seq<char>, chain: seq<Strategy>, n: nat)
    requires |chain| > 0 && !Locates(html, chain[0]) && FirstLocating(html, chain[1..], n)
    ensures FirstLocating(html, chain, n + 1)
  {
    assert chain[1..][n] == chain[n + 1];
    forall m | 0 < m < n + 1 ensures !Locates(html, chain[m]) {
      assert chain[m] == chain[1..][m - 1];
    }
  }

  /** The head misses and so does the whole tail. */
  lemma TailMisses(html: seq<char>, chain: seq<Strategy>, text: string)
    requires |chain| > 0 && !Attempt(html, chain[0], text).1
    requires !TryChain(html, chain[1..], text).1
    ensures ChainSpec(html, chain, text)
  {
    forall n | 0 <= n < |chain| ensures !Locates(html, chain[n]) {
      AttemptSpec(html, chain[n], text);
    }
  }

  /** The first locating strategy is unique. */
  lemma FirstLocatingUnique(html: seq<char>, chain: seq<Strategy>, n1: nat, n2: nat)
    requires FirstLocating(html, chain, n1) && FirstLocating(html, chain, n2)
    ensures n1 == n2
  {
  }

  /** When strategy `n` is the first that applies, the chain does what that strategy does. */
  lemma {:induction false} ChainUsesFirst(html: seq<char>, chain: seq<Strategy>, text: string, n: nat)
    requires FirstLocating(html, chain, n)
    ensures TryChain(html, chain, text) == (Attempt(html, chain[n], text).0, true)
  {
    var r := TryChain(html, chain, text);
    TryChainSpec(html, chain, text);
    assert r.1;
    var n2: nat :| FirstLocating(html, chain, n2) && r.0 == Attempt(html, chain[n2], text).0;
    FirstLocatingUnique(html, chain, n, n2);
  }

  // ---------------------------------------------------------------- one field

  /**
   * One field of `perform_conditional_replacements`: nothing happens when the flag
   * is off; a warning and no change when the text is missing; otherwise the first
   * strategy that finds its region rewrites the document, and a warning and no
   * change when none does.
   */
  function ApplyField(site: string, html: seq<char>, cfg: Config, rule: Rule): (r: (seq<char>, seq<Warning>))
    ensures !Active(cfg, rule.flagKey) ==> r == (html, [])
    ensures Active(cfg, rule.flagKey) && TextOf(cfg, rule.textKey).None? ==>
      r == (html, [Warning(site, rule.field, MissingText)])
    ensures Active(cfg, rule.flagKey) && TextOf(cfg, rule.textKey).Some? ==>
      && (r.1 == [] <==> exists n :: 0 <= n < |rule.chain| && Locates(html, rule.chain[n]))
      && (r.1 != [] ==> r == (html, [Warning(site, rule.field, RegionNotFound)]))
      && (r.1 == [] ==> exists n: nat :: (FirstLocating(html, rule.chain, n)
            && r.0 == Attempt(html, rule.chain[n], TextOf(cfg, rule.textKey).value).0))
  {
    if !Active(cfg, rule.flagKey) then (html, [])
    else match TextOf(cfg, rule.textKey)
      case None => (html, [Warning(site, rule.field, MissingText)])
      case Some(text) =>
        var c := TryChain(html, rule.chain, text);
        TryChainSpec(html, rule.chain, text);
        if c.1 then (c.0, []) else (html, [Warning(site, rule.field, RegionNotFound)])
  }

  /** A field writes its text where its first applicable strategy points. */
  lemma FieldUsesFirst(site: string, html: seq<char>, cfg: Config, rule: Rule, n: nat)
    requires Active(cfg, rule.flagKey) && TextOf(cfg, rule.textKey).Some?
    requires FirstLocating(html, rule.chain, n)
    ensures ApplyField(site, html, cfg, rule) == (Attempt(html, rule.chain[n], cfg[rule.textKey]).0, [])
  {
    ChainUsesFirst(html, rule.chain, cfg[rule.textKey], n);
  }

  // ---------------------------------------------------------------- all fields

  /** The fields applied one after the other, each to the previous one's output. */
  function ApplyAll(site: string, html: seq<char>, cfg: Config, rules: seq<Rule>): (r: (seq<char>, seq<Warning>))
    ensures |r.1| <= |rules|
    ensures forall w :: w in r.1 ==> w.site == site
    ensures forall w :: w in r.1 ==> exists n :: (0 <= n < |rules| && rules[n].field == w.field
      && Active(cfg, rules[n].flagKey))
    decreases |rules|
  {
    if |rules| == 0 then (html, [])
    else
      var before := ApplyAll(site, html, cfg, rules[..|rules| - 1]);
      var last := ApplyField(site, before.0, cfg, rules[|rules| - 1]);
      assert forall n :: 0 <= n < |rules| - 1 ==> rules[..|rules| - 1][n] == rules[n];
      (last.0, before.1 + last.1)
  }

  /** Applying `xs + ys` is applying `xs`, then `ys` to the result; the warnings follow the same order. */
  lemma {:induction false} ApplyAllAppend(site: string, html: seq<char>, cfg: Config, xs: seq<Rule>, ys: seq<Rule>)
    ensures var first := ApplyAll(site, html, cfg, xs);
      var second := ApplyAll(site, first.0, cfg, ys);
      ApplyAll(site, html, cfg, xs + ys) == (second.0, first.1 + second.1)
    decreases |ys|
  {
    if |ys| == 0 {
      assert xs + ys == xs;
      var first := ApplyAll(site, html, cfg, xs);
      assert ApplyAll(site, first.0, cfg, ys) == (first.0, []);
      assert first.1 + [] == first.1;
    } else {
      var ys', y := ys[..|ys| - 1], ys[|ys| - 1];
      ApplyAllAppend(site, html, cfg, xs, ys');
      SplitLast(xs, ys);
      ApplyAllSnoc(site, html, cfg, xs + ys', y);
      var first := ApplyAll(site, html, cfg, xs);
      ApplyAllSnoc(site, first.0, cfg, ys', y);
      var mid := ApplyAll(site, first.0, cfg, ys');
      var last := ApplyField(site, mid.0, cfg, y);
      Assoc(first.1, mid.1, last.1);
    }
  }

  lemma SplitLast<T>(xs: seq<T>, ys: seq<T>)
    requires |ys| > 0
    ensures ys == ys[..|ys| - 1] + [ys[|ys| - 1]]
    ensures xs + ys == (xs + ys[..|ys| - 1]) + [ys[|ys| - 1]]
  {
  }

  lemma Assoc<T>(a: seq<T>, b: seq<T>, c: seq<T>)
    ensures (a + b) + c == a + (b + c)
  {
  }

  /** One more field: its rule is applied to the output of the ones before it. */
  lemma ApplyAllSnoc(site: string, html: seq<char>, cfg: Config, rules: seq<Rule>, rule: Rule)
    ensures var before := ApplyAll(site, html, cfg, rules);
      var last := ApplyField(site, before.0, cfg, rule);
      ApplyAll(site, html, cfg, rules + [rule]) == (last.0, before.1 + last.1)
  {
    assert (rules + [rule])[..|rules|] == rules;
  }

  /** With every flag off the document comes back unchanged and nothing is logged. */
  lemma {:induction false} InactiveFieldsKeepDocument(site: string, html: seq<char>, cfg: Config, rules: seq<Rule>)
    requires forall n :: 0 <= n < |rules| ==> !Active(cfg, rules[n].flagKey)
    ensures ApplyAll(site, html, cfg, rules) == (html, [])
    decreases |rules|
  {
    if |rules| > 0 {
      InactiveFieldsKeepDocument(site, html, cfg, rules[..|rules| - 1]);
    }
  }

  /** `perform_conditional_replacements`: the three fields in order; returns the document and the warnings. */
  function PerformConditionalReplacements(site: string, base: seq<char>, cfg: Config): (r: (seq<char>, seq<Warning>))
    ensures |r.1| <= 3
    ensures forall w :: w in r.1 ==> w.site == site
    ensures forall w :: w in r.1 ==>
      (w.field == Reimbursement && Active(cfg, ReimbursementFlag))
      || (w.field == DataProtection && Active(cfg, DataProtectionFlag))
      || (w.field == Complaint && Active(cfg, ComplaintFlag))
    ensures !Active(cfg, ReimbursementFlag) && !Active(cfg, DataProtectionFlag) && !Active(cfg, ComplaintFlag)
      ==> r == (base, [])
  {
    assert !Active(cfg, ReimbursementFlag) && !Active(cfg, DataProtectionFlag) && !Active(cfg, ComplaintFlag)
      ==> ApplyAll(site, base, cfg, Rules) == (base, []) by {
      if !Active(cfg, ReimbursementFlag) && !Active(cfg, DataProtectionFlag) && !Active(cfg, ComplaintFlag) {
        InactiveFieldsKeepDocument(site, base, cfg, Rules);
      }
    }
    ApplyAll(site, base, cfg, Rules)
  }

  /** The document passes through the three fields in order. */
  lemma PerformIsThreeSteps(site: string, base: seq<char>, cfg: Config)
    ensures var a := ApplyField(site, base, cfg, ReimbursementRule);
      var b := ApplyField(site, a.0, cfg, DataProtectionRule);
      var c := ApplyField(site, b.0, cfg, ComplaintRule);
      PerformConditionalReplacements(site, base, cfg) == (c.0, a.1 + b.1 + c.1)
  {
    var a := ApplyField(site, base, cfg, ReimbursementRule);
    var b := ApplyField(site, a.0, cfg, DataProtectionRule);
    assert Rules[..2] == [ReimbursementRule, DataProtectionRule];
    assert Rules[..2][..1] == [ReimbursementRule];
    assert [ReimbursementRule][..0] == [];
    assert ApplyAll(site, base, cfg, []) == (base, []);
    assert ApplyAll(site, base, cfg, [ReimbursementRule]) == (a.0, [] + a.1);
    assert ApplyAll(site, base, cfg, Rules[..2]) == (b.0, ([] + a.1) + b.1);
    var c := ApplyField(site, b.0, cfg, ComplaintRule);
    assert Rules[..|Rules| - 1] == Rules[..2];
    assert ApplyAll(site, base, cfg, Rules) == (c.0, (([] + a.1) + b.1) + c.1);
    assert [] + a.1 == a.1;
  }

  // ---------------------------------------------------------------- priorities

  /** Reimbursement: an existing marker pair wins over the heading fallback. */
  lemma ReimbursementPrefersMarkers(site: string, html: seq<char>, cfg: Config)
    requires Active(cfg, ReimbursementFlag) && TextOf(cfg, ReimbursementText).Some?
    requires exists i: nat :: MarkerPairAt(html, i, "REIMBURSEMENT_START", "REIMBURSEMENT_END")
    ensures ApplyField(site, html, cfg, ReimbursementRule)
      == (ReplaceBetweenMarkers(html, "REIMBURSEMENT_START", "REIMBURSEMENT_END", cfg[ReimbursementText]).0, [])
  {
    assert FirstLocating(html, ReimbursementRule.chain, 0);
    FieldUsesFirst(site, html, cfg, ReimbursementRule, 0);
  }

  /** Reimbursement: without a marker pair the text goes after the `Aufwandsentschädigung` heading. */
  lemma ReimbursementFallsBackToHeading(site: string, html: seq<char>, cfg: Config)
    requires Active(cfg, ReimbursementFlag) && TextOf(cfg, ReimbursementText).Some?
    requires !exists i: nat :: MarkerPairAt(html, i, "REIMBURSEMENT_START", "REIMBURSEMENT_END")
    requires exists i: nat, j: nat :: HeadingAt(html, i, j, ReimbursementHeading)
    ensures ApplyField(site, html, cfg, ReimbursementRule)
      == (ReplaceSectionAfterHeading(html, ReimbursementHeading, cfg[ReimbursementText]).0, [])
  {
    assert FirstLocating(html, ReimbursementRule.chain, 1);
    FieldUsesFirst(site, html, cfg, ReimbursementRule, 1);
  }

  /** Data protection: the heading pair wins over markers and over the heading fallback. */
  lemma DataProtectionPrefersHeadingPair(site: string, html: seq<char>, cfg: Config)
    requires Active(cfg, DataProtectionFlag) && TextOf(cfg, DataProtectionText).Some?
    requires exists i: nat :: HeadingPairAt(html, i, "Verantwortliche", "Rechtsgrundlage")
    ensures ApplyField(site, html, cfg, DataProtectionRule)
      == (ReplaceBetweenHeadings(html, "Verantwortliche", "Rechtsgrundlage", cfg[DataProtectionText]).0, [])
  {
    assert FirstLocating(html, DataProtectionRule.chain, 0);
    FieldUsesFirst(site, html, cfg, DataProtectionRule, 0);
  }

  /** Complaint: the `<h3>`-to-`<h2>` region wins over markers and over the heading fallback. */
  lemma ComplaintPrefersH2Region(site: string, html: seq<char>, cfg: Config)
    requires Active(cfg, ComplaintFlag) && TextOf(cfg, ComplaintText).Some?
    requires exists i: nat :: HeadingH2At(html, i, "Beschwerderecht", ConsentFragment)
    ensures ApplyField(site, html, cfg, ComplaintRule)
      == (ReplaceBetweenHeadingAndH2(html, "Beschwerderecht", ConsentFragment, cfg[ComplaintText]).0, [])
  {
    assert FirstLocating(html, ComplaintRule.chain, 0);
    FieldUsesFirst(site, html, cfg, ComplaintRule, 0);
  }

  /**
   * The reimbursement warnings, decided on the template itself since that field
   * comes first: a missing-text warning exactly when the flag is on and the text
   * is absent or empty, a not-found warning exactly when the text is there but
   * neither markers nor the heading occur.
   */
  lemma ReimbursementWarnings(site: string, base: seq<char>, cfg: Config)
    ensures var w := PerformConditionalReplacements(site, base, cfg).1;
      && (Warning(site, Reimbursement, MissingText) in w
          <==> Active(cfg, ReimbursementFlag) && TextOf(cfg, ReimbursementText).None?)
      && (Warning(site, Reimbursement, RegionNotFound) in w
          <==> && Active(cfg, ReimbursementFlag) && TextOf(cfg, ReimbursementText).Some?
               && !(exists i: nat :: MarkerPairAt(base, i, "REIMBURSEMENT_START", "REIMBURSEMENT_END"))
               && !(exists i: nat, j: nat :: HeadingAt(base, i, j, ReimbursementHeading)))
  {
    PerformIsThreeSteps(site, base, cfg);
    var a := ApplyField(site, base, cfg, ReimbursementRule);
    var b := ApplyField(site, a.0, cfg, DataProtectionRule);
    ReimbursementFieldWarnings(site, base, cfg);
    FieldWarnsAboutItself(site, a.0, cfg, DataProtectionRule);
    FieldWarnsAboutItself(site, b.0, cfg, ComplaintRule);
  }

  /** The reimbursement field's own warnings: a missing text, or neither of its strategies applies. */
  lemma ReimbursementFieldWarnings(site: string, base: seq<char>, cfg: Config)
    ensures var w := ApplyField(site, base, cfg, ReimbursementRule).1;
      && (Warning(site, Reimbursement, MissingText) in w
          <==> Active(cfg, ReimbursementFlag) && TextOf(cfg, ReimbursementText).None?)
      && (Warning(site, Reimbursement, RegionNotFound) in w
          <==> && Active(cfg, ReimbursementFlag) && TextOf(cfg, ReimbursementText).Some?
               && !(exists i: nat :: MarkerPairAt(base, i, "REIMBURSEMENT_START", "REIMBURSEMENT_END"))
               && !(exists i: nat, j: nat :: HeadingAt(base, i, j, ReimbursementHeading)))
  {
    var chain := ReimbursementRule.chain;
    assert (exists n :: 0 <= n < |chain| && Locates(base, chain[n]))
      <==> Locates(base, chain[0]) || Locates(base, chain[1]);
  }

  /** A field logs at most once, and only about itself, on behalf of the site being built. */
  lemma FieldWarnsAboutItself(site: string, html: seq<char>, cfg: Config, rule: Rule)
    ensures |ApplyField(site, html, cfg, rule).1| <= 1
    ensures forall w :: w in ApplyField(site, html, cfg, rule).1 ==> w.site == site && w.field == rule.field
  {
  }

  /** No field is warned about twice: each of the three logs at most once. */
  lemma OneWarningPerField(site: string, base: seq<char>, cfg: Config)
    ensures var ws := PerformConditionalReplacements(site, base, cfg).1;
      forall a, b :: 0 <= a < b < |ws| ==> ws[a].field != ws[b].field
  {
    PerformIsThreeSteps(site, base, cfg);
    var x := ApplyField(site, base, cfg, ReimbursementRule);
    var y := ApplyField(site, x.0, cfg, DataProtectionRule);
    var z := ApplyField(site, y.0, cfg, ComplaintRule);
    FieldWarnsAboutItself(site, base, cfg, ReimbursementRule);
    FieldWarnsAboutItself(site, x.0, cfg, DataProtectionRule);
    FieldWarnsAboutItself(site, y.0, cfg, ComplaintRule);
    ThreeFieldsDistinct(x.1, y.1, z.1);
  }

  /** Three lists of at most one warning each, about three different fields, never repeat a field. */
  lemma ThreeFieldsDistinct(x: seq<Warning>, y: seq<Warning>, z: seq<Warning>)
    requires |x| <= 1 && |y| <= 1 && |z| <= 1
    requires forall w :: w in x ==> w.field == Reimbursement
    requires forall w :: w in y ==> w.field == DataProtection
    requires forall w :: w in z ==> w.field == Complaint
    ensures forall a, b :: 0 <= a < b < |x + y + z| ==> (x + y + z)[a].field != (x + y + z)[b].field
  {
    var ws := x + y + z;
    forall k | 0 <= k < |ws|
      ensures ws[k].field == if k < |x| then Reimbursement else if k < |x| + |y| then DataProtection else Complaint
    {
      if k < |x| {
        assert ws[k] == x[k];
      } else if k < |x| + |y| {
        assert ws[k] == y[k - |x|];
      } else {
        assert ws[k] == z[k - |x| - |y|];
      }
    }
  }
}
