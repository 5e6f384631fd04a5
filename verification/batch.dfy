/**
 * The batch loop of `build_consent.py`'s `main`: every site of the mapping except
 * the `default` entry gets the template run through its replacement policy and a
 * file name derived from its configuration.
 */
module Batch {
  import opened Wrappers
  import opened Text
  import opened Policy

  /** One `site: {...}` entry of the mapping, in the mapping's order. */
  datatype Entry = Entry(site: string, cfg: Config)

  /** A generated document and where it goes. */
  datatype Output = Output(site: string, path: string, html: seq<char>)

  const LocationKey := "0_html_consent_form_location"

  /** The entry `main` skips: its name is `default` in any capitalisation. */
  predicate IsDefaultSite(site: string) {
    && |site| == 7
    && Fold(site[0]) == 'd' && Fold(site[1]) == 'e' && Fold(site[2]) == 'f' && Fold(site[3]) == 'a'
    && Fold(site[4]) == 'u' && Fold(site[5]) == 'l' && Fold(site[6]) == 't'
  }

  /** The test `site.lower() == "default"` of `main`. */
  lemma IsDefaultSiteIsLower(site: string)
    ensures IsDefaultSite(site) <==> Lower(site) == "default"
  {
    if Lower(site) == "default" {
      assert Lower(site)[0] == 'd' && Lower(site)[1] == 'e' && Lower(site)[2] == 'f' && Lower(site)[3] == 'a';
      assert Lower(site)[4] == 'u' && Lower(site)[5] == 'l' && Lower(site)[6] == 't';
    }
  }

  // ---------------------------------------------------------------- paths

  /** `os.path.basename` on a POSIX path: the part after the last `/`. */
  function Basename(p: string): (r: string)
    ensures |r| <= |p| && r == p[|p| - |r|..]
    ensures forall k :: 0 <= k < |r| ==> r[k] != '/'
    ensures |r| < |p| ==> p[|p| - |r| - 1] == '/'
    decreases |p|
  {
    if |p| == 0 || p[|p| - 1] == '/' then []
    else Basename(p[..|p| - 1]) + [p[|p| - 1]]
  }

  /** The slash-free suffix reaching back to a `/` or to the start is unique: `Basename` is the only one. */
  lemma {:induction false} BasenameUnique(p: string, t: string)
    requires |t| <= |p| && t == p[|p| - |t|..]
    requires forall k :: 0 <= k < |t| ==> t[k] != '/'
    requires |t| < |p| ==> p[|p| - |t| - 1] == '/'
    ensures t == Basename(p)
    decreases |p|
  {
    assert forall k :: 0 <= k < |t| ==> t[k] == p[|p| - |t| + k];
    if |p| == 0 || p[|p| - 1] == '/' {
    } else {
      assert |t| > 0;
      var p', t' := p[..|p| - 1], t[..|t| - 1];
      assert t' == p'[|p'| - |t'|..];
      BasenameUnique(p', t');
      assert t[|t| - 1] == p[|p| - 1];
      assert t == t' + [t[|t| - 1]];
      assert Basename(p) == Basename(p') + [p[|p| - 1]];
    }
  }

  /** The configured location's base name, or `consent_form_<site>.html` when none is configured. */
  function FileName(site: string, cfg: Config): (r: string)
    ensures TextOf(cfg, LocationKey).Some? ==>
      |r| <= |cfg[LocationKey]| && r == cfg[LocationKey][|cfg[LocationKey]| - |r|..]
      && (forall k :: 0 <= k < |r| ==> r[k] != '/')
      && (|r| < |cfg[LocationKey]| ==> cfg[LocationKey][|cfg[LocationKey]| - |r| - 1] == '/')
    ensures TextOf(cfg, LocationKey).None? ==> r == "consent_form_" + site + ".html"
  {
    match TextOf(cfg, LocationKey)
    case Some(p) => Basename(p)
    case None => "consent_form_" + site + ".html"
  }

  /** `os.path.join(dir, name)` for two components. */
  function Join(dir: string, name: string): (r: string)
    ensures |name| <= |r| && r[|r| - |name|..] == name
    ensures |name| > 0 && name[0] == '/' ==> r == name
    ensures (|name| == 0 || name[0] != '/') ==> |dir| <= |r| && r[..|dir|] == dir
    ensures (|name| == 0 || name[0] != '/') && (dir == "" || dir[|dir| - 1] == '/') ==> |r| == |dir| + |name|
    ensures (|name| == 0 || name[0] != '/') && dir != "" && dir[|dir| - 1] != '/' ==>
      |r| == |dir| + 1 + |name| && r[|dir|] == '/'
  {
    if |name| > 0 && name[0] == '/' then name
    else if dir == "" || dir[|dir| - 1] == '/' then dir + name
    else dir + "/" + name
  }

  /** `Join`'s contract leaves no freedom: a relative name is the directory, at most one `/`, then the name. */
  lemma JoinPinned(dir: string, name: string, r: string)
    requires |name| == 0 || name[0] != '/'
    requires |name| <= |r| && r[|r| - |name|..] == name && |dir| <= |r| && r[..|dir|] == dir
    ensures (dir == "" || dir[|dir| - 1] == '/') && |r| == |dir| + |name| ==> r == dir + name
    ensures dir != "" && dir[|dir| - 1] != '/' && |r| == |dir| + 1 + |name| && r[|dir|] == '/' ==>
      r == dir + "/" + name
  {
    if |r| == |dir| + |name| {
      assert r == r[..|dir|] + r[|dir|..];
    }
    if |r| == |dir| + 1 + |name| && |dir| < |r| && r[|dir|] == '/' {
      assert r == r[..|dir|] + [r[|dir|]] + r[|dir| + 1..];
    }
  }

  /** The directory `determine_output_path` writes into: the output directory when one is given, else the mapping's. */
  function TargetDir(mappingDir: string, outdir: Option<string>): (r: string)
    ensures outdir.Some? && |outdir.value| > 0 ==> r == outdir.value
    ensures outdir.None? || |outdir.value| == 0 ==> r == mappingDir
  {
    if outdir.Some? && outdir.value != "" then outdir.value else mappingDir
  }

  /**
   * `determine_output_path` without `abspath`: the file name goes into the output
   * directory when one is given, otherwise next to the mapping file.
   */
  function OutputPath(site: string, cfg: Config, mappingDir: string, outdir: Option<string>): (r: string)
    ensures var name := FileName(site, cfg);
      |name| <= |r| && r[|r| - |name|..] == name
    ensures var dir, name := TargetDir(mappingDir, outdir), FileName(site, cfg);
      (|name| == 0 || name[0] != '/') ==> |dir| <= |r| && r[..|dir|] == dir
    ensures var dir, name := TargetDir(mappingDir, outdir), FileName(site, cfg);
      (|name| == 0 || name[0] != '/') && (dir == "" || dir[|dir| - 1] == '/') ==> |r| == |dir| + |name|
    ensures var dir, name := TargetDir(mappingDir, outdir), FileName(site, cfg);
      (|name| == 0 || name[0] != '/') && dir != "" && dir[|dir| - 1] != '/' ==>
        |r| == |dir| + 1 + |name| && r[|dir|] == '/'
  {
    Join(TargetDir(mappingDir, outdir), FileName(site, cfg))
  }

  /** How a site's document is built from the template: `perform_conditional_replacements` in the model proper. */
  type Builder = (string, seq<char>, Config) -> (seq<char>, seq<Warning>)

  /** The site's generated document, built from the unmodified template, and where it goes. */
  function Render(build: Builder, template: seq<char>, mappingDir: string, outdir: Option<string>, e: Entry): Output {
    Output(e.site, OutputPath(e.site, e.cfg, mappingDir, outdir), build(e.site, template, e.cfg).0)
  }

  /** What `main` does with one site: the document it produces and the warnings logged while building it. */
  type SiteStep = Entry -> (Output, seq<Warning>)

  /** `main`'s step for one site, with `build` doing the replacements. */
  function SiteStepOf(build: Builder, template: seq<char>, mappingDir: string, outdir: Option<string>): SiteStep {
    e => (Render(build, template, mappingDir, outdir, e), build(e.site, template, e.cfg).1)
  }

  // ---------------------------------------------------------------- the loop

  /** The entries `main` processes, in mapping order. */
  function NonDefault(entries: seq<Entry>): (r: seq<Entry>)
    ensures |r| <= |entries|
    decreases |entries|
  {
    if |entries| == 0 then []
    else
      var before := NonDefault(entries[..|entries| - 1]);
      var last := entries[|entries| - 1];
      if IsDefaultSite(last.site) then before else before + [last]
  }

  /** The processed entries are exactly the mapping's entries other than `default`. */
  lemma {:induction false} NonDefaultMembers(entries: seq<Entry>)
    ensures forall x :: x in NonDefault(entries) <==> x in entries && !IsDefaultSite(x.site)
    decreases |entries|
  {
    if |entries| > 0 {
      var init, last := entries[..|entries| - 1], entries[|entries| - 1];
      NonDefaultMembers(init);
      assert entries == init + [last];
    }
  }

  /** The documents `step` produces for `sites`, one each, in order. */
  function Outputs(step: SiteStep, sites: seq<Entry>): (r: seq<Output>)
    ensures |r| == |sites|
    decreases |sites|
  {
    if |sites| == 0 then [] else Outputs(step, sites[..|sites| - 1]) + [step(sites[|sites| - 1]).0]
  }

  /** The warnings `step` logs for `sites`, site by site, in order. */
  function Warnings(step: SiteStep, sites: seq<Entry>): seq<Warning>
    decreases |sites|
  {
    if |sites| == 0 then [] else Warnings(step, sites[..|sites| - 1]) + step(sites[|sites| - 1]).1
  }

  /** The `n`-th document is the `n`-th site's. */
  lemma {:induction false} OutputsAt(step: SiteStep, sites: seq<Entry>)
    ensures forall n :: 0 <= n < |sites| ==> Outputs(step, sites)[n] == step(sites[n]).0
    decreases |sites|
  {
    if |sites| > 0 {
      var init := sites[..|sites| - 1];
      OutputsAt(step, init);
      assert forall n :: 0 <= n < |init| ==> sites[n] == init[n];
    }
  }

  /** One more site: its document and its warnings go at the end. */
  lemma AppendSite(step: SiteStep, sites: seq<Entry>, e: Entry)
    ensures Outputs(step, sites + [e]) == Outputs(step, sites) + [step(e).0]
    ensures Warnings(step, sites + [e]) == Warnings(step, sites) + step(e).1
  {
    assert (sites + [e])[..|sites|] == sites;
  }

  /** The documents and warnings gathered so far. */
  datatype Tally = Tally(outputs: seq<Output>, warnings: seq<Warning>)

  /** The loop's running totals after the given entries: default entries add nothing. */
  function Run(step: SiteStep, entries: seq<Entry>): Tally
    decreases |entries|
  {
    if |entries| == 0 then Tally([], [])
    else
      var t := Run(step, entries[..|entries| - 1]);
      var e := entries[|entries| - 1];
      if IsDefaultSite(e.site) then t
      else Tally(t.outputs + [step(e).0], t.warnings + step(e).1)
  }

  /** One more entry of the mapping. */
  lemma RunStep(step: SiteStep, entries: seq<Entry>, i: nat)
    requires i < |entries|
    ensures Run(step, entries[..i + 1]) ==
      var t := Run(step, entries[..i]);
      if IsDefaultSite(entries[i].site) then t
      else Tally(t.outputs + [step(entries[i]).0], t.warnings + step(entries[i]).1)
  {
    assert entries[..i + 1][..i] == entries[..i];
  }

  /** The running totals are the documents and warnings of the non-default sites, in mapping order. */
  lemma {:induction false} RunMeaning(step: SiteStep, entries: seq<Entry>)
    ensures Run(step, entries) == Tally(Outputs(step, NonDefault(entries)), Warnings(step, NonDefault(entries)))
    decreases |entries|
  {
    if |entries| > 0 {
      var init, last := entries[..|entries| - 1], entries[|entries| - 1];
      RunMeaning(step, init);
      AppendSite(step, NonDefault(init), last);
    }
  }

  /**
   * Every site of the mapping except `default` gets exactly its own document, and
   * every document comes from a non-default entry.
   */
  lemma BatchCoversSites(step: SiteStep, entries: seq<Entry>)
    ensures var outs := Outputs(step, NonDefault(entries));
      && (forall x :: x in entries && !IsDefaultSite(x.site) ==> step(x).0 in outs)
      && (forall o :: o in outs ==> exists x :: x in entries && !IsDefaultSite(x.site) && o == step(x).0)
  {
    var sites := NonDefault(entries);
    NonDefaultMembers(entries);
    var outs := Outputs(step, sites);
    OutputsAt(step, sites);
    forall x | x in entries && !IsDefaultSite(x.site)
      ensures step(x).0 in outs
    {
      var n :| 0 <= n < |sites| && sites[n] == x;
      assert outs[n] == step(x).0;
    }
    forall o | o in outs
      ensures exists x :: x in entries && !IsDefaultSite(x.site) && o == step(x).0
    {
      var n :| 0 <= n < |outs| && outs[n] == o;
      assert sites[n] in sites;
    }
  }

  /** With the real policy, a run logs at most three warnings per site in total, each naming a processed site. */
  lemma {:induction false} PolicyWarningsBound(template: seq<char>, mappingDir: string, outdir: Option<string>,
                                               sites: seq<Entry>)
    ensures var ws := Warnings(SiteStepOf(PerformConditionalReplacements, template, mappingDir, outdir), sites);
      && |ws| <= 3 * |sites|
      && forall w :: w in ws ==> exists x :: x in sites && x.site == w.site
    decreases |sites|
  {
    if |sites| > 0 {
      var step := SiteStepOf(PerformConditionalReplacements, template, mappingDir, outdir);
      var init, last := sites[..|sites| - 1], sites[|sites| - 1];
      PolicyWarningsBound(template, mappingDir, outdir, init);
      var ws := Warnings(step, sites);
      var before := Warnings(step, init);
      var own := PerformConditionalReplacements(last.site, template, last.cfg).1;
      assert ws == before + own;
      forall w | w in ws ensures exists x :: x in sites && x.site == w.site {
        if w in before {
          var x :| x in init && x.site == w.site;
          assert x in sites;
        } else {
          assert w in own;
          assert last in sites;
        }
      }
    }
  }

  /**
   * The loop over the mapping: default entries are skipped without being
   * counted, every other site yields one document, in mapping order; in a dry
   * run nothing is written but the count is the same.
   */
  method RunBatch(step: SiteStep, entries: seq<Entry>, dryRun: bool)
    returns (outputs: seq<Output>, written: seq<Output>, warnings: seq<Warning>, generated: nat, skipped: nat)
    ensures generated == |outputs| == |NonDefault(entries)|
    ensures skipped == 0
    ensures outputs == Outputs(step, NonDefault(entries))
    ensures written == if dryRun then [] else outputs
    ensures warnings == Warnings(step, NonDefault(entries))
  {
    outputs, written, warnings, generated, skipped := [], [], [], 0, 0;
    var i := 0;
    while i < |entries|
      invariant 0 <= i <= |entries|
      invariant generated == |outputs|
      invariant skipped == 0
      invariant Tally(outputs, warnings) == Run(step, entries[..i])
      invariant written == if dryRun then [] else outputs
    {
      var e := entries[i];
      RunStep(step, entries, i);
      if !IsDefaultSite(e.site) {
        var (out, ws) := step(e);
        outputs := outputs + [out];
        if !dryRun {
          written := written + [out];
        }
        warnings := warnings + ws;
        generated := generated + 1;
      }
      i := i + 1;
    }
    assert entries[..i] == entries;
    RunMeaning(step, entries);
  }

  /** With `main`'s step, the `n`-th document is the `n`-th site's template run through `build`, at that site's path. */
  lemma StepOutputs(build: Builder, template: seq<char>, mappingDir: string, outdir: Option<string>, sites: seq<Entry>)
    ensures forall n :: 0 <= n < |sites| ==>
      var o := Outputs(SiteStepOf(build, template, mappingDir, outdir), sites)[n];
      && o.site == sites[n].site
      && o.path == OutputPath(sites[n].site, sites[n].cfg, mappingDir, outdir)
      && o.html == build(sites[n].site, template, sites[n].cfg).0
  {
    var step := SiteStepOf(build, template, mappingDir, outdir);
    OutputsAt(step, sites);
    forall n | 0 <= n < |sites|
      ensures var o := Outputs(step, sites)[n];
        && o.site == sites[n].site
        && o.path == OutputPath(sites[n].site, sites[n].cfg, mappingDir, outdir)
        && o.html == build(sites[n].site, template, sites[n].cfg).0
    {
      var e := sites[n];
      assert step(e).0 == Render(build, template, mappingDir, outdir, e);
    }
  }

  /** `main`'s loop with the replacement policy of `perform_conditional_replacements`. */
  method BuildConsentForms(entries: seq<Entry>, template: seq<char>, mappingDir: string,
                           outdir: Option<string>, dryRun: bool)
    returns (outputs: seq<Output>, written: seq<Output>, warnings: seq<Warning>, generated: nat, skipped: nat)
    ensures generated == |outputs| == |NonDefault(entries)| && skipped == 0
    ensures outputs == Outputs(SiteStepOf(PerformConditionalReplacements, template, mappingDir, outdir),
                               NonDefault(entries))
    ensures written == if dryRun then [] else outputs
    ensures warnings == Warnings(SiteStepOf(PerformConditionalReplacements, template, mappingDir, outdir),
                                 NonDefault(entries))
    ensures |warnings| <= 3 * |outputs|
  {
    var step := SiteStepOf(PerformConditionalReplacements, template, mappingDir, outdir);
    outputs, written, warnings, generated, skipped := RunBatch(step, entries, dryRun);
    PolicyWarningsBound(template, mappingDir, outdir, NonDefault(entries));
  }
}
