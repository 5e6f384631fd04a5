# Consent-form builder: region-replacement engine

`consent_forms/build_consent.py` builds one HTML consent form per study site from
a single default template and a JSON mapping of site settings. It does not parse
the HTML. It patches regions of the text with four regular-expression matchers,
and each matcher rewrites at most the leftmost match (`subn(count=1)`):

- `replace_between_markers`: the span from `<!-- START -->` to the first
  following `<!-- END -->`. The span is rewritten as normalised markers around
  the new text.
- `replace_section_after_heading`: the text after an `<h3 ...>TEXT</h3>` heading
  (plus the whitespace after it), up to the first structural boundary or the end
  of the document.
- `replace_between_headings`: the text after one `<h3>` heading up to the first
  later `<h3>` heading with a given text.
- `replace_between_heading_and_h2`: the text after one `<h3>` heading up to the
  first `<h2` from which a given fragment and then `</h2>` occur somewhere later.

`perform_conditional_replacements` handles three optional fields in a fixed
order: reimbursement, data protection and complaint rights. A field is switched
on by a `yes` flag. Each field tries its own ordered chain of matchers and keeps
the first that finds its region. It logs a warning when the text is missing or
when no matcher succeeds. The loop in `main` runs this policy on the unmodified
template for every site except the `default` entry. It names each output file
and counts the generated files.

The Dafny model has these layers:

| file | module | contents |
|---|---|---|
| `wrappers.dfy` | `Wrappers` | `Option` |
| `text.dfy` | `Text` | `\s` (`str.isspace`), the case fold, case-insensitive literals, whitespace skipping, search |
| `tokens.dfy` | `Tokens` | the tokens of the patterns (marker comment, `<h3>` heading, its kept prefix, the boundary lookahead, the `<h2` lookahead) as declarative predicates, each with a scanning function proved equivalent |
| `scan.dfy` | `Scan` | a generic leftmost-start, shortest-body search: the `count=1` semantics of `open[\s\S]*?(close)` |
| `matchers.dfy` | `Matchers` | the four matchers, specified by first-match predicates and prefix/replacement/suffix decompositions |
| `marker_laws.dfy` | `MarkerLaws` | idempotence of the marker matcher |
| `policy.dfy` | `Policy` | flags, texts, strategy chains, the three fields, warnings |
| `batch.dfy` | `Batch` | the `default` test, file names, the site loop and its counters |

Documents are `seq<char>`. Each matcher returns `(document, found)`. Warnings are
returned as a list of `Warning(site, field, problem)` events instead of being
logged.

Two details of the patterns are modelled as the code has them:

- The `\s*` after `</h3>` is greedy and belongs to the kept prefix. Taking the
  maximal run is exact here, because every lookahead that can follow it starts
  with `<` or is `\Z`.
- The `<h2` lookahead `<h2[^>]*>[\s\S]*?FRAGMENT[\s\S]*?</h2>` does not stop at
  the first `</h2>`. The fragment, and a `</h2>` after it, may lie in a later
  element. So the complaint region ends at the first `<h2` from which the
  fragment occurs anywhere further on. This differs from the docstring, which
  speaks of the `<h2>` that contains the text. The model follows the code.

## Model

| member | source | states |
|---|---|---|
| Text.SkipSpace | consent_forms/build_consent.py:103 | the greedy `\s*` after `</h3>`: everything skipped is whitespace and the character it stops at is not |
| Text.Find | consent_forms/build_consent.py:151 | `[\s\S]*?LITERAL`: the first case-insensitive occurrence of a literal at or after a position, or none at all |
| Tokens.MarkerEnd | consent_forms/build_consent.py:80 | the comment `<!--\s*NAME\s*-->` starting at `i` ends at `j` exactly when the scan returns `j`; the end is unique |
| Tokens.PaddedEndUnique | consent_forms/build_consent.py:80 | a name padded by `\s*` and followed by a terminator that starts with a non-space can end in only one place, so a token's match is fixed by its start |
| Tokens.PadEndIff | consent_forms/build_consent.py:80 | the scan for `\s*NAME\s*TERMINATOR` finds a position exactly when the pattern matches there |
| Tokens.HeadingEnd | consent_forms/build_consent.py:103 | `<h3[^>]*>\s*TEXT\s*</h3>` at `i` ends at `j` exactly when the scan returns `j` |
| Tokens.PrefixEnd | consent_forms/build_consent.py:103 | the `prefix` group (heading plus following whitespace) starting at `i` ends at `p` exactly when the scan returns `p` |
| Tokens.H2AheadCheck | consent_forms/build_consent.py:151 | decides the lookahead `<h2[^>]*>[\s\S]*?FRAGMENT[\s\S]*?</h2>`: true exactly when an `<h2` tag closes, the fragment follows, and `</h2>` follows the fragment |
| Scan.FindFirst | consent_forms/build_consent.py:88 | `subn(count=1)` of `open[\s\S]*?(?=close)`: the result has the leftmost start and the shortest body, and none means no position matches |
| Scan.FirstClose | consent_forms/build_consent.py:80 | the lazy body `[\s\S]*?` stops at the first position where the closing part matches |
| Matchers.MarkerMatchIff | consent_forms/build_consent.py:80 | the scan matches at `i` exactly when a start-marker comment at `i` is followed, at or after its end, by an end-marker comment |
| Matchers.ReplaceBetweenMarkers | consent_forms/build_consent.py:79-89 | found exactly when a marker pair exists; if found, the output is the text before the first pair, then `<!-- S -->\nR\n<!-- E -->`, then the text after the first end marker following it; otherwise the input is unchanged |
| Matchers.AfterHeadingMatchIff | consent_forms/build_consent.py:103 | a match starts at `i` exactly when an `<h3>` heading with the text starts there: the `\Z` alternative makes the lookahead always reachable |
| Matchers.ReplaceSectionAfterHeading | consent_forms/build_consent.py:102-111 | found exactly when the heading occurs; the heading and its trailing whitespace are kept, the text up to the first boundary token (or the end) is replaced by `R + "\n"`, and that text holds no boundary token; otherwise the input is unchanged |
| Matchers.HeadingPairMatchIff | consent_forms/build_consent.py:127 | a match starts at `i` exactly when the start heading is there and an end heading begins at or after its kept prefix |
| Matchers.ReplaceBetweenHeadings | consent_forms/build_consent.py:126-135 | found exactly when a start heading has an end heading after it; the text from the kept prefix to the first later end heading is replaced by `R + "\n"`, and the end heading and everything after it are kept; otherwise the input is unchanged |
| Matchers.HeadingH2MatchIff | consent_forms/build_consent.py:151 | a match starts at `i` exactly when the start heading is there and the `<h2` lookahead succeeds at or after its kept prefix |
| Matchers.ReplaceBetweenHeadingAndH2 | consent_forms/build_consent.py:150-159 | found exactly when such a heading and `<h2` exist; the text up to the first `<h2` whose lookahead succeeds is replaced by `R + "\n"`, and that `<h2` and everything after it are kept; otherwise the input is unchanged |
| MarkerLaws.NormalMarkerIsMarker | consent_forms/build_consent.py:86 | the normalised comment `<!-- NAME -->` that the replacement writes matches the marker pattern for NAME |
| MarkerLaws.MarkerEndUnique | consent_forms/build_consent.py:80 | two marker comments for one name starting at the same position end at the same position |
| MarkerLaws.FirstMarkerPairUnique | consent_forms/build_consent.py:88 | the leftmost-start, shortest-body marker span is unique |
| MarkerLaws.ReplaceAtFirstPair | consent_forms/build_consent.py:88-89 | whenever a span is the first marker pair, the matcher rewrites exactly that span and reports success |
| MarkerLaws.MarkerIdempotent | consent_forms/build_consent.py:79-89 | running the marker matcher again with the same replacement returns its own output, as long as the replacement holds no end-marker comment |
| Policy.TextOf | consent_forms/build_consent.py:176-178 | a field's text counts only when the key is present with a non-empty value (`if not …_text`); then it is that value |
| Policy.ActiveIsYes | consent_forms/build_consent.py:175 | a flag is on exactly when its value is `yes` in some capitalisation; a missing key counts as `no` |
| Policy.AttemptSpec | consent_forms/build_consent.py:185-195 | one matcher call reports success exactly when its pattern occurs, and on failure the document is unchanged |
| Policy.TryChain | consent_forms/build_consent.py:185-202 | the if/else fallback: on success the result is one of the strategies' own results; on failure the document is unchanged and every strategy failed |
| Policy.TryChainSpec | consent_forms/build_consent.py:213-241 | the chain succeeds exactly when some strategy's pattern occurs; the result is what the first such strategy produces; on failure the document is unchanged |
| Policy.ChainUsesFirst | consent_forms/build_consent.py:213-241 | when strategy `n` is the first applicable one, the chain's result is that strategy's result |
| Policy.ApplyField | consent_forms/build_consent.py:175-202 | flag off: no change and no warning; text absent or empty: no change and exactly one missing-text warning; otherwise no warning exactly when some strategy applies, the first one's output, or no change and exactly one not-found warning |
| Policy.FieldUsesFirst | consent_forms/build_consent.py:205-241 | an active field with text writes it where its first applicable strategy points |
| Policy.ApplyAll | consent_forms/build_consent.py:172-282 | `result_html` threaded through the fields in order: at most `|rules|` warnings in total, each naming the site and a field whose flag is on |
| Policy.ApplyAllAppend | consent_forms/build_consent.py:172-282 | applying fields `xs + ys` is applying `xs`, then `ys` to that result, and the warnings concatenate in the same order |
| Policy.InactiveFieldsKeepDocument | consent_forms/build_consent.py:177 | with every flag off the document is returned unchanged and nothing is logged |
| Policy.PerformConditionalReplacements | consent_forms/build_consent.py:162-282 | at most three warnings, all naming the site, each for a field whose flag is on; with all flags off the template comes back unchanged |
| Policy.OneWarningPerField | consent_forms/build_consent.py:177-280 | each field logs at most once (its if/else reaches at most one `logger.warning`), so no two warnings of a site name the same field |
| Policy.PerformIsThreeSteps | consent_forms/build_consent.py:172-282 | the document is threaded through reimbursement, then data protection, then complaint, and the warnings follow that order |
| Policy.ReimbursementPrefersMarkers | consent_forms/build_consent.py:185-190 | with the reimbursement markers present, the marker replacement is used even if the heading also exists |
| Policy.ReimbursementFallsBackToHeading | consent_forms/build_consent.py:191-198 | without reimbursement markers, the text goes after the `Aufwandsentschädigung` heading when it exists |
| Policy.DataProtectionPrefersHeadingPair | consent_forms/build_consent.py:214-220 | a `Verantwortliche` … `Rechtsgrundlage` heading pair wins over markers and over the heading fallback |
| Policy.ComplaintPrefersH2Region | consent_forms/build_consent.py:253-259 | the `Beschwerderecht` … `<h2` region wins over markers and over the heading fallback |
| Policy.ReimbursementWarnings | consent_forms/build_consent.py:175-202 | missing-text warning for reimbursement exactly when the flag is on and the text is absent or empty; not-found warning exactly when the text is there but the template has neither the markers nor the heading |
| Batch.IsDefaultSiteIsLower | consent_forms/build_consent.py:389 | the skipped entry is exactly the one with `site.lower() == "default"` |
| Batch.Basename | consent_forms/build_consent.py:312 | `os.path.basename`: a suffix of the path without `/`, preceded by `/` unless it is the whole path |
| Batch.BasenameUnique | consent_forms/build_consent.py:312 | that description fixes the base name: any such suffix equals it |
| Batch.FileName | consent_forms/build_consent.py:311-314 | a configured, non-empty location gives its base name: the `/`-free suffix reaching back to a `/` or to the start, which `Batch.BasenameUnique` shows is the only one; otherwise `consent_form_<site>.html` |
| Batch.Join | consent_forms/build_consent.py:315 | `os.path.join`: the name is a suffix of the result; an absolute name replaces the directory; otherwise the directory is a prefix, followed by exactly one `/` unless the directory is empty or already ends in `/`, and then the name |
| Batch.JoinPinned | consent_forms/build_consent.py:315 | those clauses leave no freedom: for a relative name the result is `dir + name` or `dir + "/" + name` |
| Batch.TargetDir | consent_forms/build_consent.py:309-318 | `if outdir:`: a given, non-empty output directory is used; otherwise the mapping directory |
| Batch.OutputPath | consent_forms/build_consent.py:306-323 | the file name ends the path, and the path starts with the output directory when one is given, otherwise with the mapping directory; between them is exactly one `/`, or none when the directory is empty or ends in `/` |
| Batch.NonDefaultMembers | consent_forms/build_consent.py:388-390 | the processed entries are exactly the mapping's entries other than `default` |
| Batch.BatchCoversSites | consent_forms/build_consent.py:388-416 | every non-default entry's document is among the outputs, and every output is the document of some non-default entry |
| Batch.PolicyWarningsBound | consent_forms/build_consent.py:393-398 | over a run, at most three warnings per processed site in total (`3·|sites|`), and every warning names a processed site |
| Batch.RunBatch | consent_forms/build_consent.py:385-418 | for any per-site step: the outputs are the step's documents for the non-default entries, one each, in mapping order, and the warnings are theirs in the same order; generated equals the number of non-default sites; skipped stays 0; a dry run writes nothing but counts the same |
| Batch.RunMeaning | consent_forms/build_consent.py:388-416 | the loop's running totals after any list of entries are the documents and warnings of its non-default entries, in order |
| Batch.StepOutputs | consent_forms/build_consent.py:393-412 | with `main`'s step, the `n`-th output names the `n`-th processed site, sits at that site's output path, and holds the template run through the replacement policy |
| Batch.BuildConsentForms | consent_forms/build_consent.py:385-418 | the loop with `main`'s step (`perform_conditional_replacements`, then `determine_output_path`): one output per non-default site, in order; the counts; a dry run writes nothing; at most three warnings per generated file in total over the run (`3·|outputs|`) |

## Left out

- Case folding: `re.IGNORECASE` is modelled by a fold of ASCII `A`-`Z` and Latin-1 `À`-`Þ` (without `×`) to lower case. This covers the `ä` of the German anchors. Python's other Unicode case equivalences are not modelled. The flag test (`== "yes"`) and the `default` test are not affected: no other character lower-cases to those letters.
- `\s` is the exact `str.isspace()` set of Python 3.
- JSON values: the mapping is `map<string, string>`. `null` is modelled as an absent key. Numbers, booleans and nested objects as flag or text values are not modelled.
- I/O and environment: argument parsing, logging setup, the mapping-path search, `resolve_default_path`, file reading and writing, `os.makedirs`, `os.path.abspath`/`expanduser` and the printed messages. `RunBatch` returns the outputs and the list a real run would write instead.
- Debug log lines are not modelled. Warning log lines become `Warning` values.
- `Batch.Join` and `Batch.Basename` follow POSIX path rules. Windows path semantics are not modelled.
- `Batch.RunBatch` is stated for any per-site step. `Batch.BuildConsentForms` fixes that step to `perform_conditional_replacements` followed by the output path, and `Batch.StepOutputs` spells out what that step produces for each site.
- MarkerLaws.MarkerIdempotent: it also requires that neither marker name contains `<`. This holds for all six names the script uses.
- The idempotence of the three heading matchers is not stated. A second run does not reproduce the first output in general: the kept whitespace and the `"\n"` appended after the text change what the next run keeps and replaces.
- Independence of the three fields is not stated: rewriting three disjoint regions in turn need not rewrite each of them once. It does not hold in general, because each field searches the document the previous field produced. For example, a reimbursement text that contains `<h3>Verantwortliche</h3>`, with a `Rechtsgrundlage` heading further on, moves where the data-protection region starts. `Policy.PerformIsThreeSteps` states only the order in which the fields are applied.
- `consent_forms/check_consent_form_sync.py` (network fetch, hashing, diffs) and `stimuli/check_practice_trials.py` (file diagnostics) are not part of this model.
