# axe-core audit core, modelled in Dafny

This project models three parts of axe-core, the accessibility testing engine:

- **The `Audit` registry and its configuration logic** (`lib/core/base/audit.js`):
  - registering rules and checks;
  - validating and normalising run options;
  - the locale store: the first-call snapshot, the merge of check and rule messages, errors on unknown ids, and reset;
  - deriving help URLs from the brand, application and version;
  - the sequential outcome of `run` and `after`.
- **The frame result merger** (`lib/utils/merge-results.js`). It combines the rule results that the top page and its nested frames report. There is one result per rule id, in first-appearance order. Each frame's nodes are prefixed with the frame's selector and spliced into document order.
- **The `has-th` table check** (`lib/checks/tables/has-th.js`). It scans a table's cells and records the TH cells.

Modules:

| module | file | content |
|---|---|---|
| `JsValues` | js_values.dfy | `Option` and `Result` (an error carries the thrown message) |
| `Dict` | dict.dfy | JavaScript plain objects as insertion-ordered association lists: lookup, assignment and object spread |
| `Locale` | locale.dfy | message values, check and rule metadata, locale objects, `mergeCheckLocale`, `mergeRuleLocale`, and applying a locale's entries |
| `Audit` | audit.dfy | the audit state, `addRule`, `getRule`, `addCheck`, the default-locale snapshot, `applyLocale`, `_resetLocale` |
| `Options` | options.dfy | `normalizeOptions` |
| `HelpUrl` | help_url.dfy | the version prefix, `getHelpUrl`, `_constructHelpUrls`, `setBranding` |
| `Results` | results.dfy | element handles, node references, check, node and rule results |
| `Merge` | merge.dfy | `pushFrame`, `splicenodes`, `normalizeResult`, `mergeResults` |
| `Run` | run.dfy | `run` as a sequential map over the rules, and `after` |
| `HasTh` | has_th.dfy | the `has-th` evaluate body |

Modelling choices:

- **Objects.** A JavaScript object is a list of `(key, value)` pairs in insertion order, which is the order `Object.keys` reports.
  - Assigning to an existing key replaces the value in place.
  - Assigning to a new key appends it.
  - Object spread (`{...a, ...b}`) assigns `b`'s entries onto `a` one by one.
- **Messages.** A message is `Raw(source)` (a template string) or `Compiled(source)` (the function `doT.compile` returns for it).
  - A compiled function is truthy even when its source is the empty string. So an override message that is present always replaces the default.
  - Spreading a string into an object gives one entry per character, keyed `"0"`, `"1"`, …. The model reproduces this for a string `incomplete` merged over a keyed one.
- **Thrown errors.** An error is an `Err` carrying the thrown message.
  - `applyLocale` mutates the audit entry by entry before it can throw. It returns `Applied(audit, error)`, where `audit` is the state at the throw.
- **Parameters.** These are passed in as parameters:
  - `utils.nodeSorter` (a comparison on elements);
  - `ruleShouldRun` and `Rule.run` (with the run's context fixed);
  - `Rule.after`.
- **The queue in `run`.** `run` is modelled by its sequential outcome: rules are processed in registration order and the first rejection wins.

## Model

| member | source | states |
|---|---|---|
| Locale.Override | lib/core/base/audit.js:132-145 | a present override message (compiled first if it is a string) wins over the default; an absent one keeps the default |
| Locale.MergeCheckLocale | lib/core/base/audit.js:131-156 | `pass` and `fail` become the compiled override when one is given and are otherwise kept; `impact` and every other property of the check are unchanged; a default `incomplete` that is not a keyed object is replaced by the override's `incomplete`, even an absent one; a keyed default stays keyed and is unchanged by an absent or already-compiled override |
| Locale.IncompleteUnion | lib/core/base/audit.js:146-153 | a keyed default and a keyed override merge key by key: override keys win, and default keys the override lacks are kept |
| Locale.MergeRuleLocale | lib/core/base/audit.js:162-177 | `help` and `description` become the compiled override when one is given and are otherwise kept; `helpUrl` and every other property are unchanged |
| Locale.ApplyEntries | lib/core/base/audit.js:183-208 | fails exactly when the locale names an id the data lacks, with the message naming the first such id in the locale's key order, every earlier id being known; the set of ids never changes; an id the locale does not name is untouched |
| Locale.ApplyEntriesThrow | lib/core/base/audit.js:183-208 | a throw at the first unknown id leaves exactly what the entries before it, applied on their own and without error, produce |
| Locale.ApplyEntriesThrowState | lib/core/base/audit.js:183-208 | at a throw, for a key-distinct locale: the error names the first unknown id, every entry before it holds its merge, and every id none of them names is unchanged |
| Locale.ApplyEntriesGet | lib/core/base/audit.js:183-208 | after a successful application, every id the locale names holds the merge of its previous entry with the locale's entry |
| Locale.ApplyEntriesMerged | lib/core/base/audit.js:183-208 | the same by id: after a successful application, every id the locale names is known and holds the merge of its previous entry with the locale's entry for that id |
| Audit.NewAudit | lib/core/base/audit.js:35-48 | a new audit has brand `axe`, application `axeAPI`, no rules, no checks, empty metadata and no default locale |
| Audit.GetRule | lib/core/base/audit.js:412-414 | finds nothing exactly when no rule has the id; otherwise returns the first registered rule with that id |
| Audit.RegisterRule | lib/core/base/audit.js:275-280 | the first rule with the spec's id is reconfigured in place, keeping the list's length and ids; with no such rule a new one is appended; every rule with another id is unchanged; unique ids stay unique |
| Audit.RegisterRuleTwice | lib/core/base/audit.js:275-280 | registering the same rule spec twice leaves the rule list as the first registration left it |
| Audit.AddRule | lib/core/base/audit.js:268-281 | an existing id reconfigures that rule in place, so the rule list keeps its length and order; a new id appends a new rule; other rules are unchanged; metadata given in the spec is stored under the id and the metadata of every other rule id is unchanged; without metadata the rule metadata is untouched; checks, check metadata, the default locale and the branding are unchanged; unique ids stay unique |
| Audit.AddRuleTwice | lib/core/base/audit.js:268-281 | registering the same rule spec a second time leaves the audit exactly as the first registration left it |
| Audit.Transform | lib/core/base/audit.js:304-310 | a message becomes compiled exactly when it is already compiled or its source starts with `function`; its source never changes |
| Audit.TransformMessages | lib/core/base/audit.js:297-310 | `pass` and `fail` keep their texts; a single `incomplete` message keeps its text and stays a single message; an absent or keyed `incomplete` is left exactly as it was |
| Audit.AddCheck | lib/core/base/audit.js:289-319 | the check ids become the old ids plus the spec's id; an existing check keeps its id; other checks are unchanged; metadata given in the spec is stored under the id with its messages transformed (same impact, same message texts, every other property kept), and other check metadata is unchanged; rules, rule metadata, the default locale and the branding are unchanged |
| Audit.AddCheckTwice | lib/core/base/audit.js:289-319 | registering the same check spec a second time leaves the audit exactly as the first registration left it |
| Audit.Snapshot | lib/core/base/audit.js:61-88 | the snapshot has an entry for exactly the check ids and rule ids the metadata has, in the same order; each check's entry holds its `pass`, `fail` and `incomplete` messages and each rule's entry its `help` and `description`; ids distinct in the metadata stay distinct |
| Audit.SetDefaultLocale | lib/core/base/audit.js:56-89 | a default locale that already exists is never replaced; otherwise the snapshot of the current metadata becomes the default |
| Audit.ApplyLocale | lib/core/base/audit.js:216-226 | fails exactly when the locale names an unknown check or rule id; the default locale is always set, and is the snapshot taken before this call when there was none; on success every check and rule id the locale names holds the merge of its metadata with the locale's entry; ids the locale does not name keep their metadata, even after a throw; the ids, rules, checks, branding and constants are unchanged; which error is thrown and the state at the throw are stated by Audit.ApplyLocaleError, Audit.ApplyLocaleCheckThrow and Audit.ApplyLocaleRuleThrow |
| Audit.ApplyLocaleError | lib/core/base/audit.js:216-226 | an error is the check pass's, naming the first unknown check id, or, when every check id is known, the rule pass's, naming the first unknown rule id |
| Audit.ApplyLocaleCheckThrow | lib/core/base/audit.js:183-192 | a throw in the check pass names the first unknown check id, keeps the earlier checks merged and every other check as it was, and leaves the rules untouched |
| Audit.ApplyLocaleRuleThrow | lib/core/base/audit.js:199-207 | a throw in the rule pass comes after every named check is merged; it names the first unknown rule id, keeps the earlier rules merged and every other rule as it was |
| Audit.ResetLocale | lib/core/base/audit.js:95-104 | changes nothing when there is no default locale; otherwise it applies the default locale, which it keeps: it succeeds when the default names only known ids, and then each id the default names holds the merge of its current metadata with the default's entry; nothing but the metadata changes |
| Audit.ResetAfterLocales | lib/core/base/audit.js:56-104 | after any series of locales applied to an audit without a default locale, thrown or not, a reset succeeds and every check's `pass` and `fail` and every rule's `help` and `description` render their original templates again, wherever the original had one |
| Audit.SnapshotIsFirstState | lib/core/base/audit.js:56-59 | after any non-empty series of locale applications, the default locale is the snapshot of the state before the first one |
| Audit.SnapshotKept | lib/core/base/audit.js:56-59 | once a default locale exists, no series of locale applications changes it |
| Audit.ApplyAllKeys | lib/core/base/audit.js:183-208 | no series of locale applications, thrown or not, adds or removes a check or rule id |
| Audit.KnownSnapshot | lib/core/base/audit.js:95-104 | a snapshot names only ids the metadata still has, so a reset cannot fail on unknown ids |
| Audit.ApplyLocaleCheck | lib/core/base/audit.js:183-193 | a successful application stores, under each check id the locale names, the merge of that check's metadata with the locale entry |
| Audit.FailOverrideThenRestore | lib/core/base/audit.js:131-156 | merging a fail-only override and then the original messages restores the `fail` and `pass` texts, and exactly the original `incomplete`, impact and other properties |
| Audit.FailOverrideThenReset | lib/core/base/audit.js:95-104 | a fail-only locale for a known check and the reset after it both succeed; the check then holds the snapshot entry merged over the overridden metadata |
| Audit.ResetRestoresFailOverride | lib/core/base/audit.js:95-104 | overriding only `fail` of a known check and then resetting restores its `fail` and `pass` texts, and exactly its `incomplete`, impact and other properties |
| Audit.ResetKeepsAddedFail | lib/core/base/audit.js:68-78 | a `fail` message the check did not have before the first locale survives the reset |
| Options.FirstUnknownRule | lib/core/base/audit.js:446-452 | finds nothing exactly when every id is a registered rule id; otherwise returns the first id, in the given order, that is not |
| Options.UnmatchedTags | lib/core/base/audit.js:457-461 | a tag is left unmatched exactly when it was requested and no registered rule carries it |
| Options.CheckTags | lib/core/base/audit.js:455-467 | a tag filter is accepted exactly when every requested tag is carried by some registered rule, and its type becomes `tag` |
| Options.NormalizeRunOnly | lib/core/base/audit.js:428-470 | accepts exactly the acceptable `runOnly` forms and returns their normal form: an array becomes a tag filter, `value` moves to `values`, and `rules`/`tags`/no type become `rule`/`tag`; `values` that are not a non-empty array give `runOnly.values must be a non-empty array` |
| Options.NormalizeOptions | lib/core/base/audit.js:422-482 | succeeds exactly when `runOnly` is acceptable and every key of `rules` is a registered rule id; the result has `runOnly` in normal form, with `rules` and `debug` unchanged |
| Options.ShorthandEquivalent | lib/core/base/audit.js:429-434 | an array `runOnly` is normalised exactly like the tag filter with the same values |
| HelpUrl.VersionPrefix | lib/core/base/audit.js:531 | the version is `x.y` or a prefix of the version string of the form major.minor, where the major number has no leading zero |
| HelpUrl.VersionOfRelease | lib/core/base/audit.js:531 | for a version `major.minor` followed by anything that does not start with a digit, the prefix is exactly `major.minor` |
| HelpUrl.HelpUrlShape | lib/core/base/audit.js:517-528 | a `getHelpUrl` URL starts with the base, the brand and a slash and ends with `?application=` and the application, and its length is that of its five parts plus the fifteen fixed characters |
| HelpUrl.HelpUrlInjective | lib/core/base/audit.js:517-528 | under one base, branding and version, different rule ids get different help URLs |
| HelpUrl.HelpUrls | lib/core/base/audit.js:532-543 | every registered rule ends up with metadata holding a help URL; metadata of ids with no rule is unchanged |
| HelpUrl.ConstructHelpUrls | lib/core/base/audit.js:530-544 | only rule metadata changes; every rule has a help URL afterwards, and metadata of ids with no rule is unchanged |
| HelpUrl.HelpUrlOf | lib/core/base/audit.js:517-543 | a rule's help URL is rewritten to the one derived from the current branding exactly when it was missing or equal to the one derived from the previous branding, and is kept otherwise |
| HelpUrl.SetBranding | lib/core/base/audit.js:489-512 | brand and application change only to non-empty strings; rules, checks, check metadata and the default locale are unchanged |
| HelpUrl.BrandingRederives | lib/core/base/audit.js:489-544 | after rebranding, a custom help URL is kept and a missing or previously derived one is rederived under the new branding |
| HelpUrl.BrandingKeepsDerived | lib/core/base/audit.js:489-544 | when every help URL is the derived one, it still is after any rebranding |
| Merge.PushFrame | lib/utils/merge-results.js:10-25 | each node keeps its position, now refers to the frame element, and has the frame selector followed by its old selector, so the path grows by exactly one; related nodes keep their element and get the same prefix |
| Merge.PushFrameBare | lib/utils/merge-results.js:10-25 | on nodes without check results, pushing a frame only prefixes each selector and points each node at the frame element |
| Merge.InsertionIndex | lib/utils/merge-results.js:37-46 | the index is that of the first node that sorts after the block's first node, or ties with it with a longer selector path; no earlier node qualifies; with none it is the end |
| Merge.SpliceNodes | lib/utils/merge-results.js:34-49 | the result is the target with the whole block inserted at one index, where no earlier node sorts after the block and the node at the index (if any) does; the length adds up, and the result is a permutation of target plus block |
| Merge.NestedBlockFollowsFrame | lib/utils/merge-results.js:39-45 | a frame's block goes right after the frame's own node when every earlier node sorts before the frame, every later node after it, and the frame node's path is no longer than the block's |
| Merge.NormalizeResult | lib/utils/merge-results.js:51-68 | no frame, no results or an empty list give nothing; a single result gives a one-element list; a non-empty list is returned unchanged |
| Merge.FindBy | lib/utils/merge-results.js:90 | finds nothing exactly when no merged result has the id; otherwise it is the first result with that id |
| Merge.MergeOne | lib/utils/merge-results.js:85-97 | a new id is appended; a known id with no nodes leaves the merged list unchanged; a known id with nodes splices them into that entry; the id list gains the id only if it was new |
| Merge.MergeAllAppend | lib/utils/merge-results.js:79-99 | merging two batches of results in a row is the same as merging their concatenation |
| Merge.MergeFramesFlat | lib/utils/merge-results.js:79-99 | merging frame by frame is merging the concatenation of what each frame contributes |
| Merge.MergeAllIds | lib/utils/merge-results.js:85-97 | the ids of the merged list are the ids already present followed by the new ids in order of first appearance |
| Merge.MergeResultsIds | lib/utils/merge-results.js:76-101 | `mergeResults` gives pairwise distinct ids, in order of first appearance across the frames, and exactly the ids the frames report |
| Merge.MergeOneNodes | lib/utils/merge-results.js:90-97 | for every id, merging one result adds that result's nodes to the entry with its id, and only there, as a multiset |
| Merge.MergeAllNodes | lib/utils/merge-results.js:85-97 | for every id, the merged entry holds, as a multiset, the nodes it had plus the nodes of every merged result with that id |
| Merge.MergeResultsNodes | lib/utils/merge-results.js:76-101 | in the `mergeResults` output, for every id, the merged entry holds exactly the nodes all frames report for that id, none lost and none duplicated |
| Merge.SingleFrame | lib/utils/merge-results.js:76-101 | a single top-level frame with one result merges to that result |
| Merge.PageThenFrame | lib/utils/merge-results.js:85-97 | a page result followed by a nested frame's result for the same rule gives one result: the page's nodes, then the frame's nodes prefixed, when the frame's block sorts after every page node |
| Merge.Level0Merge | test/unit/run.js:93-103 | the frame `#level1` inside `#level0` reports its own node and then the two frames inside it, prefixed with `#level1` |
| Merge.PageMerge | test/unit/run.js:93-103 | the page reports `#level0` and then what `#level0` reports, prefixed with `#level0` |
| Merge.NestedFramesOrder | test/unit/run.js:93-103 | three nested frame levels merge to the selectors `#level0`, `#level0 #level1`, `#level0 #level1 #level2a`, `#level0 #level1 #level2b`, for any node sorter that ties an element with itself |
| Run.Step | lib/core/base/audit.js:341-370 | a rule fails the run exactly when `debug` is set and the rule runs and rejects, with the rejection's message; otherwise it contributes its slot |
| Run.RunRules | lib/core/base/audit.js:332-380 | fails exactly when `debug` is set and some rule that should run rejects; otherwise yields at most one result per rule |
| Run.FirstRejectionWins | lib/core/base/audit.js:356-380 | a failed run carries the message of the first rule, in registration order, that runs and rejects |
| Run.RunRulesSlots | lib/core/base/audit.js:356-380 | without `debug` the run succeeds; it yields, in rule order, every resolved truthy result, and a CANTTELL result with the error message for every rule that rejected; skipped rules and falsy results are dropped |
| Run.RunRulesAppend | lib/core/base/audit.js:332-380 | running two lists of rules in a row is running their concatenation: the first error wins, otherwise the results concatenate |
| Run.SkippedRuleInvisible | lib/core/base/audit.js:334 | a rule that should not run changes nothing in the outcome |
| Run.RejectionReported | lib/core/base/audit.js:356-366 | without `debug`, a rule that runs and rejects is reported as CANTTELL with its error message, right after what the rules before it report |
| Run.Run | lib/core/base/audit.js:328-330 | an options error is the run's error; a successful run had valid options; without `debug`, valid options mean the run succeeds |
| Run.After | lib/core/base/audit.js:389-405 | succeeds exactly when every result's id is a registered rule id; it then keeps the length, and position k is the first such rule's `after` applied to result k; otherwise it fails with the unknown-rule message |
| HasTh.ThCellsMembers | lib/checks/tables/has-th.js:5-13 | a cell is among the collected TH cells exactly when it is a TH cell of some row |
| HasTh.ThCellsEmpty | lib/checks/tables/has-th.js:5-15 | nothing is collected exactly when no cell of the table is a TH |
| HasTh.Evaluate | lib/checks/tables/has-th.js:2-20 | returns true exactly when some cell is a TH; related nodes are recorded exactly when it returns true, and are then the TH cells in row-major order and nothing else |

## Left out

Behaviours of the code that are easy to misread. The model follows the code in each case:

- An override message that is present always replaces the default, even an empty string (lib/core/base/audit.js:135-145): the string is compiled first, and a compiled function is truthy.
- Overriding only `fail` leaves `incomplete` unchanged only when the default `incomplete` is a keyed object (lib/core/base/audit.js:146-153). A single-message or absent default is replaced by the override's `incomplete`, which is then absent.
- A frame's block is inserted before a node that ties with the block's first node only when that node's selector path is longer than the block's (lib/utils/merge-results.js:42). With equal paths the block goes after it.
- A frame that reports an empty list of results is skipped without an error (lib/utils/merge-results.js:80-83).

Not modelled:

- **The queue in `run`.**
  - The concurrency of `axe.utils.queue` is left out. Rules are processed in registration order. Under `debug`, the run fails with the first rejecting rule in that order, not the first rejection in time.
  - The `performanceTimer` marks and `axe._selectCache` are left out: they are instrumentation only.
  - The error result's `description`, `stack` and `error` fields are left out.
  - The defaults of `new RuleResult(rule)` are not part of this model. An error result is a CANTTELL result with no nodes.
- **Message compilation.** `doT.compile` and the `new Function` evaluation of message strings are foreign calls and run-time code generation. A message is only marked compiled.
- **Classes whose source is not part of this model.**
  - `Rule`, `Check` and `RuleResult`.
  - `Rule.configure` is modelled as keeping the id and taking the spec's tags and settings. `Check.configure` keeps the check's id.
  - `DqElement` becomes an element handle plus a selector path. `pushFrame`'s rewrapping of related nodes is discarded by the code, and the model discards it too.
  - `utils.getAllChecks` is the node result's list of check results. `utils.findBy` is the first match by id.
- **Object behaviour.**
  - Integer-like object keys, which JavaScript enumerates first in numeric order, are not treated specially.
  - Object aliasing is not modelled, so shared node objects cannot be mutated through another reference.
- **Options.**
  - `null` values for `runOnly` or `rules` are not modelled. These are objects in JavaScript and make the code throw a `TypeError`.
  - The partial mutation of `options` before `normalizeOptions` throws is not modelled: an error returns no options.
  - `ruleShouldRun`, `tagExclude` and `getDefaultConfiguration` are not part of this model.
- **Other audit operations.** `_init`, `resetRulesAndChecks`, `registerCommand`, the reporter and `failureSummaries` are not part of this model. Nor is metadata without a `messages` object.
- **Help URLs.** `getHelpUrl`'s fallback to the version string cut at its last dot is never reached: `_constructHelpUrls` always passes a non-empty version. The fallback is not modelled.
- Run.RunRules: its contract states failure and result count. What the successful results are is stated by Run.RunRulesSlots, and the order of the results by Run.RunRulesAppend and Run.RejectionReported.
- Audit.ResetRestoresFailOverride: the restored `fail` and `pass` have the original text but come back compiled, because reset passes the snapshot through the compiler again. A `fail` that was absent before the first locale is not removed (Audit.ResetKeepsAddedFail).
- HelpUrl.VersionPrefix: its contract does not say that `x.y` comes back only when no prefix matches; HelpUrl.VersionOfRelease states the exact prefix for every version shaped major.minor followed by a non-digit.
- Run.Run: an invalid option makes `run` throw synchronously (lib/core/base/audit.js:330), while a rule rejection under `debug` reaches the `reject` callback. Both are an `Err` here, so the model does not tell the two apart.
- Audit.ResetAfterLocales: impact, other properties and `incomplete` are not claimed restored after an arbitrary series of locales. A string `incomplete` spread over a keyed one that a locale installed does not come back as a string.
- Run.After: a `rule.after` that throws (lib/core/base/audit.js:403) is not modelled. `after` takes the rule's post-processing as a total function, so every call returns a result.
