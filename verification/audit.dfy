/**
 * The Audit object of lib/core/base/audit.js: the rule registry (an ordered list), the
 * check registry (keyed by id), their metadata, branding and the locale store.
 */
module Audit {
  import opened JsValues
  import opened Dict
  import opened Locale

  /**
   * A registered rule. The Rule class is not part of this model: `settings` stands for
   * every configurable property other than the id and the tags (selector, enabled,
   * matches, checks, ...).
   */
  datatype Rule = Rule(id: string, tags: seq<string>, settings: map<string, string>)

  /** The specification object handed to `addRule`. */
  datatype RuleSpec = RuleSpec(
    id: string,
    tags: Option<seq<string>>,
    metadata: Option<RuleMeta>,
    settings: map<string, string>)

  /** A registered check; `settings` abstracts the Check class, which is not part of this model. */
  datatype Check = Check(id: string, settings: map<string, string>)

  /** The specification object handed to `addCheck`; `metadata` is `None` when it is not an object. */
  datatype CheckSpec = CheckSpec(id: string, metadata: Option<CheckMeta>, settings: map<string, string>)

  /** `audit.data`: metadata of checks and of rules, keyed by id. */
  datatype Data = Data(checks: Dict<CheckMeta>, rules: Dict<RuleMeta>)

  /**
   * The audit state. `helpUrlBase` and `version` are the library-wide constants
   * `axe.constants.helpUrlBase` and `axe.version` the source reads.
   */
  datatype Audit = Audit(
    brand: string,
    application: string,
    rules: seq<Rule>,
    checks: map<string, Check>,
    data: Data,
    defaultLocale: Option<LocaleSpec>,
    helpUrlBase: string,
    version: string)

  const DefaultBrand: string := "axe"
  const DefaultApplication: string := "axeAPI"

  /** `new Audit()` without a configuration: empty registries, default branding, no locale snapshot. */
  function NewAudit(helpUrlBase: string, version: string): (a: Audit)
    ensures a.brand == "axe" && a.application == "axeAPI"
    ensures a.rules == [] && a.checks == map[] && a.data == Data([], [])
    ensures a.defaultLocale.None?
  {
    Audit(DefaultBrand, DefaultApplication, [], map[], Data([], []), None, helpUrlBase, version)
  }

  /** Rule ids are pairwise distinct: the registry invariant `AddRule` keeps. */
  ghost predicate UniqueIds(rules: seq<Rule>) {
    forall i, j :: 0 <= i < j < |rules| ==> rules[i].id != rules[j].id
  }

  function FindRuleFrom(rules: seq<Rule>, id: string, i: nat): (r: Option<nat>)
    requires i <= |rules|
    requires forall j :: 0 <= j < i ==> rules[j].id != id
    ensures r.Some? ==> r.value < |rules| && rules[r.value].id == id && forall j :: 0 <= j < r.value ==> rules[j].id != id
    ensures r.None? ==> forall j :: 0 <= j < |rules| ==> rules[j].id != id
    decreases |rules| - i
  {
    if i == |rules| then None
    else if rules[i].id == id then Some(i)
    else FindRuleFrom(rules, id, i + 1)
  }

  /** The position of the first rule with the given id (`Array.prototype.find`). */
  function FindRule(rules: seq<Rule>, id: string): (r: Option<nat>)
    ensures r.Some? ==> r.value < |rules| && rules[r.value].id == id && forall j :: 0 <= j < r.value ==> rules[j].id != id
    ensures r.None? <==> forall j :: 0 <= j < |rules| ==> rules[j].id != id
  {
    FindRuleFrom(rules, id, 0)
  }

  /** `getRule`: the first registered rule with the given id, if any. */
  function GetRule(rules: seq<Rule>, id: string): (r: Option<Rule>)
    ensures r.None? <==> forall j :: 0 <= j < |rules| ==> rules[j].id != id
    ensures r.Some? ==> r.value.id == id && exists i :: (0 <= i < |rules| && rules[i] == r.value
                                                         && forall j :: 0 <= j < i ==> rules[j].id != id)
  {
    match FindRule(rules, id)
    case Some(i) => Some(rules[i])
    case None => None
  }

  /** `new Rule(spec)`: the id comes from the spec; tags default to none. */
  function NewRule(spec: RuleSpec): Rule {
    Rule(spec.id, spec.tags.OrElse([]), spec.settings)
  }

  /** `rule.configure(spec)`: the id never changes; properties the spec supplies override. */
  function ConfigureRule(r: Rule, spec: RuleSpec): Rule {
    Rule(r.id, spec.tags.OrElse(r.tags), r.settings + spec.settings)
  }

  /** Reconfiguring twice with the same spec is reconfiguring once. */
  lemma ConfigureTwice(r: Rule, spec: RuleSpec)
    ensures ConfigureRule(ConfigureRule(r, spec), spec) == ConfigureRule(r, spec)
  {
    assert r.settings + spec.settings + spec.settings == r.settings + spec.settings;
  }

  /**
   * The rule-list half of `addRule`: reconfigures the first rule with the spec's id in
   * place, or appends a new rule when no rule has that id.
   */
  function RegisterRule(rules: seq<Rule>, spec: RuleSpec): (r: seq<Rule>)
    ensures GetRule(rules, spec.id).Some? ==>
      && |r| == |rules|
      && (forall i :: 0 <= i < |rules| ==> r[i].id == rules[i].id)
      && GetRule(r, spec.id) == Some(ConfigureRule(GetRule(rules, spec.id).value, spec))
    ensures GetRule(rules, spec.id).None? ==> r == rules + [NewRule(spec)]
    ensures forall i :: 0 <= i < |rules| && rules[i].id != spec.id ==> r[i] == rules[i]
    ensures UniqueIds(rules) ==> UniqueIds(r)
  {
    match FindRule(rules, spec.id)
    case Some(i) =>
      var rs := rules[i := ConfigureRule(rules[i], spec)];
      assert FindRule(rs, spec.id) == Some(i) by {
        assert rs[i].id == spec.id;
        assert forall k :: 0 <= k < i ==> rs[k].id != spec.id;
      }
      rs
    case None => rules + [NewRule(spec)]
  }

  /** Registering the same rule spec twice leaves the rule list as the first registration left it. */
  lemma RegisterRuleTwice(rules: seq<Rule>, spec: RuleSpec)
    ensures RegisterRule(RegisterRule(rules, spec), spec) == RegisterRule(rules, spec)
  {
    var r1 := RegisterRule(rules, spec);
    match FindRule(rules, spec.id)
    case Some(i) =>
      assert r1 == rules[i := ConfigureRule(rules[i], spec)];
      ConfigureTwice(rules[i], spec);
      var i1 := FindRule(r1, spec.id).value;
      assert r1[i1].id == rules[i1].id;
      assert i1 == i;
    case None =>
      var i := |rules|;
      assert r1[i] == NewRule(spec);
      assert spec.settings + spec.settings == spec.settings;
      var i1 := FindRule(r1, spec.id).value;
      assert i1 == i;
  }

  /** `addRule`: stores the spec's metadata (when given) and registers the rule. */
  function AddRule(a: Audit, spec: RuleSpec): (r: Audit)
    ensures GetRule(a.rules, spec.id).Some? ==>
      && |r.rules| == |a.rules|
      && (forall i :: 0 <= i < |a.rules| ==> r.rules[i].id == a.rules[i].id)
      && GetRule(r.rules, spec.id) == Some(ConfigureRule(GetRule(a.rules, spec.id).value, spec))
    ensures GetRule(a.rules, spec.id).None? ==> r.rules == a.rules + [NewRule(spec)]
    ensures forall i :: 0 <= i < |a.rules| && a.rules[i].id != spec.id ==> r.rules[i] == a.rules[i]
    ensures spec.metadata.Some? ==> Get(r.data.rules, spec.id) == spec.metadata
    ensures spec.metadata.Some? ==> forall id :: id != spec.id ==> Get(r.data.rules, id) == Get(a.data.rules, id)
    ensures spec.metadata.None? ==> r.data.rules == a.data.rules
    ensures r.checks == a.checks && r.data.checks == a.data.checks && r.defaultLocale == a.defaultLocale
    ensures r == a.(rules := r.rules, data := r.data)
    ensures UniqueIds(a.rules) ==> UniqueIds(r.rules)
  {
    var rulesMeta :=
      if spec.metadata.Some? then
        var d := Put(a.data.rules, spec.id, spec.metadata.value);
        assert forall id :: Get(d, id) == if id == spec.id then spec.metadata else Get(a.data.rules, id) by {
          forall id ensures Get(d, id) == if id == spec.id then spec.metadata else Get(a.data.rules, id) {
            PutGet(a.data.rules, spec.id, spec.metadata.value, id);
          }
        }
        d
      else a.data.rules;
    a.(rules := RegisterRule(a.rules, spec), data := a.data.(rules := rulesMeta))
  }

  /** True when `s` begins with `prefix` (`s.indexOf(prefix) === 0`). */
  predicate StartsWith(s: string, prefix: string) {
    |prefix| <= |s| && s[..|prefix|] == prefix
  }

  /** `addCheck`'s transform: a template string that is the source of a function becomes that function. */
  function Transform(m: Message): (r: Message)
    ensures r.source == m.source
    ensures r.Compiled? <==> m.Compiled? || StartsWith(m.source, "function")
  {
    if m.Raw? && StartsWith(m.source, "function") then Compiled(m.source) else m
  }

  function TransformOption(m: Option<Message>): Option<Message> {
    match m
    case Some(msg) => Some(Transform(msg))
    case None => None
  }

  /** Only string-valued messages are transformed; a keyed `incomplete` is an object and is left alone. */
  function TransformMessages(ms: Messages): (r: Messages)
    ensures Text(r.pass) == Text(ms.pass) && Text(r.fail) == Text(ms.fail)
    ensures !ms.incomplete.Single? ==> r.incomplete == ms.incomplete
    ensures ms.incomplete.Single? ==> r.incomplete.Single? && r.incomplete.msg.source == ms.incomplete.msg.source
  {
    Messages(
      TransformOption(ms.pass),
      TransformOption(ms.fail),
      match ms.incomplete
      case Single(m) => Single(Transform(m))
      case other => other)
  }

  /**
   * `addCheck`: stores the metadata (when it is an object) with function-source messages
   * turned into functions, then reconfigures the check with the spec's id or creates it.
   */
  function AddCheck(a: Audit, spec: CheckSpec): (r: Audit)
    ensures r.checks.Keys == a.checks.Keys + {spec.id}
    ensures r.checks[spec.id].id == (if spec.id in a.checks then a.checks[spec.id].id else spec.id)
    ensures forall id :: id in a.checks && id != spec.id ==> r.checks[id] == a.checks[id]
    ensures spec.metadata.Some? ==> (
              && Get(r.data.checks, spec.id).Some?
              && Get(r.data.checks, spec.id).value.impact == spec.metadata.value.impact
              && Text(Get(r.data.checks, spec.id).value.messages.pass) == Text(spec.metadata.value.messages.pass)
              && Text(Get(r.data.checks, spec.id).value.messages.fail) == Text(spec.metadata.value.messages.fail))
    ensures spec.metadata.Some? ==>
      Get(r.data.checks, spec.id) == Some(spec.metadata.value.(messages := TransformMessages(spec.metadata.value.messages)))
    ensures spec.metadata.Some? ==> forall id :: id != spec.id ==> Get(r.data.checks, id) == Get(a.data.checks, id)
    ensures spec.metadata.None? ==> r.data.checks == a.data.checks
    ensures r.rules == a.rules && r.data.rules == a.data.rules && r.defaultLocale == a.defaultLocale
    ensures r == a.(checks := r.checks, data := r.data)
  {
    var checksMeta :=
      if spec.metadata.Some? then
        var meta := spec.metadata.value.(messages := TransformMessages(spec.metadata.value.messages));
        var d := Put(a.data.checks, spec.id, meta);
        assert forall id :: Get(d, id) == if id == spec.id then Some(meta) else Get(a.data.checks, id) by {
          forall id ensures Get(d, id) == if id == spec.id then Some(meta) else Get(a.data.checks, id) {
            PutGet(a.data.checks, spec.id, meta, id);
          }
        }
        d
      else a.data.checks;
    var check := if spec.id in a.checks
      then Check(a.checks[spec.id].id, a.checks[spec.id].settings + spec.settings)
      else Check(spec.id, spec.settings);
    a.(checks := a.checks[spec.id := check], data := a.data.(checks := checksMeta))
  }

  /** The locale entry a check's metadata amounts to: its three messages. */
  function CheckEntry(m: CheckMeta): CheckLocale {
    CheckLocale(m.messages.pass, m.messages.fail, m.messages.incomplete)
  }

  /** The locale entry a rule's metadata amounts to: its help and description. */
  function RuleEntry(m: RuleMeta): RuleLocale {
    RuleLocale(m.help, m.description)
  }

  /**
   * The locale the audit's current metadata amounts to (`_setDefaultLocale`'s snapshot):
   * an entry per check holding its messages and an entry per rule holding its help and
   * description, under the same ids in the same order.
   */
  function Snapshot(d: Data): (loc: LocaleSpec)
    ensures Keys(loc.checks) == Keys(d.checks) && Keys(loc.rules) == Keys(d.rules)
    ensures Wf(d.checks) ==> Wf(loc.checks)
    ensures Wf(d.rules) ==> Wf(loc.rules)
    ensures forall k :: Has(d.checks, k) ==> Get(loc.checks, k) == Some(CheckEntry(Get(d.checks, k).value))
    ensures forall k :: Has(d.rules, k) ==> Get(loc.rules, k) == Some(RuleEntry(Get(d.rules, k).value))
  {
    LocaleSpec(MapValues(d.checks, CheckEntry), MapValues(d.rules, RuleEntry))
  }

  /** `_setDefaultLocale`: takes the snapshot on the first call only. */
  function SetDefaultLocale(a: Audit): (r: Audit)
    ensures a.defaultLocale.Some? ==> r == a
    ensures a.defaultLocale.None? ==> r == a.(defaultLocale := Some(Snapshot(a.data)))
  {
    if a.defaultLocale.Some? then a else a.(defaultLocale := Some(Snapshot(a.data)))
  }

  /** The audit after `applyLocale`, and the message of the error it threw, if any. */
  datatype Applied = Applied(audit: Audit, error: Option<string>)

  /** Every id the locale names is known to the audit's metadata. */
  predicate KnownIds(d: Data, loc: LocaleSpec) {
    && (forall i :: 0 <= i < |loc.checks| ==> Has(d.checks, loc.checks[i].0))
    && (forall i :: 0 <= i < |loc.rules| ==> Has(d.rules, loc.rules[i].0))
  }

  /** `_applyCheckLocale`: the check entries merged in key order, throwing at the first unknown id. */
  function ApplyCheckLocale(checks: Dict<CheckMeta>, loc: Dict<CheckLocale>): (r: (Dict<CheckMeta>, Option<string>))
    ensures Keys(r.0) == Keys(checks)
    ensures r.1.None? <==> forall i :: 0 <= i < |loc| ==> Has(checks, loc[i].0)
    ensures r.1.None? && Wf(loc) ==> forall k :: Has(loc, k) ==>
      Has(checks, k) && Get(r.0, k) == Some(MergeCheckLocale(Get(checks, k).value, Get(loc, k).value))
    ensures forall k :: !Has(loc, k) ==> Get(r.0, k) == Get(checks, k)
  {
    ApplyEntriesMerged(checks, loc, MergeCheckLocale, "check");
    ApplyEntries(checks, loc, MergeCheckLocale, "check")
  }

  /** `_applyRuleLocale`: the rule entries merged in key order, throwing at the first unknown id. */
  function ApplyRuleLocale(rules: Dict<RuleMeta>, loc: Dict<RuleLocale>): (r: (Dict<RuleMeta>, Option<string>))
    ensures Keys(r.0) == Keys(rules)
    ensures r.1.None? <==> forall i :: 0 <= i < |loc| ==> Has(rules, loc[i].0)
    ensures r.1.None? && Wf(loc) ==> forall k :: Has(loc, k) ==>
      Has(rules, k) && Get(r.0, k) == Some(MergeRuleLocale(Get(rules, k).value, Get(loc, k).value))
    ensures forall k :: !Has(loc, k) ==> Get(r.0, k) == Get(rules, k)
  {
    ApplyEntriesMerged(rules, loc, MergeRuleLocale, "rule");
    ApplyEntries(rules, loc, MergeRuleLocale, "rule")
  }

  /**
   * `applyLocale`: snapshot first (once), then merge the check entries, then the rule
   * entries. An unknown id throws; the state at that point (snapshot taken, earlier
   * entries merged) is what the audit keeps.
   */
  function ApplyLocale(a: Audit, loc: LocaleSpec): (r: Applied)
    ensures r.error.None? <==> KnownIds(a.data, loc)
    ensures r.audit.defaultLocale == SetDefaultLocale(a).defaultLocale
    ensures r.audit.defaultLocale.Some?
    ensures Keys(r.audit.data.checks) == Keys(a.data.checks) && Keys(r.audit.data.rules) == Keys(a.data.rules)
    ensures r.audit == a.(data := r.audit.data, defaultLocale := r.audit.defaultLocale)
    ensures r.error.None? && Wf(loc.checks) ==> forall k :: Has(loc.checks, k) ==>
      Has(a.data.checks, k)
      && Get(r.audit.data.checks, k) == Some(MergeCheckLocale(Get(a.data.checks, k).value, Get(loc.checks, k).value))
    ensures r.error.None? && Wf(loc.rules) ==> forall k :: Has(loc.rules, k) ==>
      Has(a.data.rules, k)
      && Get(r.audit.data.rules, k) == Some(MergeRuleLocale(Get(a.data.rules, k).value, Get(loc.rules, k).value))
    ensures forall k :: !Has(loc.checks, k) ==> Get(r.audit.data.checks, k) == Get(a.data.checks, k)
    ensures forall k :: !Has(loc.rules, k) ==> Get(r.audit.data.rules, k) == Get(a.data.rules, k)
  {
    var a1 := SetDefaultLocale(a);
    var c := ApplyCheckLocale(a.data.checks, loc.checks);
    if c.1.Some? then
      Applied(a1.(data := a.data.(checks := c.0)), c.1)
    else
      var rl := ApplyRuleLocale(a.data.rules, loc.rules);
      Applied(a1.(data := Data(c.0, rl.0)), rl.1)
  }

  /**
   * Which error `applyLocale` throws: the check pass runs first, so an unknown check id
   * wins, and the rule pass's error is reported only when every check id is known. Either
   * way the message names the first unknown id in key order.
   */
  lemma ApplyLocaleError(a: Audit, loc: LocaleSpec)
    ensures var r := ApplyLocale(a, loc);
      r.error.Some? ==>
        || (exists i :: FirstUnknownAt(a.data.checks, loc.checks, i) && r.error.value == UnknownIdMessage("check", loc.checks[i].0))
        || (&& (forall j :: 0 <= j < |loc.checks| ==> Has(a.data.checks, loc.checks[j].0))
            && exists i :: FirstUnknownAt(a.data.rules, loc.rules, i) && r.error.value == UnknownIdMessage("rule", loc.rules[i].0))
  {
  }

  /**
   * `applyLocale` throwing in the check pass: the error names the first unknown check id,
   * the checks before it in key order stay merged, every other check is untouched, and
   * the rule pass never runs.
   */
  lemma ApplyLocaleCheckThrow(a: Audit, loc: LocaleSpec, i: int)
    requires Wf(loc.checks) && FirstUnknownAt(a.data.checks, loc.checks, i)
    ensures var r := ApplyLocale(a, loc);
      && r.error == Some(UnknownIdMessage("check", loc.checks[i].0))
      && r.audit.data.rules == a.data.rules
      && (forall j :: 0 <= j < i ==>
            Get(r.audit.data.checks, loc.checks[j].0) == Some(MergeCheckLocale(Get(a.data.checks, loc.checks[j].0).value, loc.checks[j].1)))
      && (forall k :: (forall j :: 0 <= j < i ==> loc.checks[j].0 != k) ==> Get(r.audit.data.checks, k) == Get(a.data.checks, k))
  {
    ApplyEntriesThrowState(a.data.checks, loc.checks, MergeCheckLocale, "check", i);
  }

  /**
   * `applyLocale` throwing in the rule pass: every check the locale names is already
   * merged, the error names the first unknown rule id, the rules before it stay merged
   * and every other rule is untouched.
   */
  lemma ApplyLocaleRuleThrow(a: Audit, loc: LocaleSpec, i: int)
    requires Wf(loc.checks) && Wf(loc.rules)
    requires forall j :: 0 <= j < |loc.checks| ==> Has(a.data.checks, loc.checks[j].0)
    requires FirstUnknownAt(a.data.rules, loc.rules, i)
    ensures var r := ApplyLocale(a, loc);
      && r.error == Some(UnknownIdMessage("rule", loc.rules[i].0))
      && (forall k :: Has(loc.checks, k) ==>
           Get(r.audit.data.checks, k) == Some(MergeCheckLocale(Get(a.data.checks, k).value, Get(loc.checks, k).value)))
      && (forall j :: 0 <= j < i ==>
            Get(r.audit.data.rules, loc.rules[j].0) == Some(MergeRuleLocale(Get(a.data.rules, loc.rules[j].0).value, loc.rules[j].1)))
      && (forall k :: (forall j :: 0 <= j < i ==> loc.rules[j].0 != k) ==> Get(r.audit.data.rules, k) == Get(a.data.rules, k))
  {
    ApplyEntriesMerged(a.data.checks, loc.checks, MergeCheckLocale, "check");
    ApplyEntriesThrowState(a.data.rules, loc.rules, MergeRuleLocale, "rule", i);
  }

  /** `_resetLocale`: nothing when no snapshot exists, otherwise the snapshot applied as a locale. */
  function ResetLocale(a: Audit): (r: Applied)
    ensures a.defaultLocale.None? ==> r == Applied(a, None)
    ensures a.defaultLocale.Some? ==> r == ApplyLocale(a, a.defaultLocale.value)
    ensures r.audit.defaultLocale == a.defaultLocale
    ensures r.audit == a.(data := r.audit.data)
    ensures a.defaultLocale.Some? && KnownIds(a.data, a.defaultLocale.value) ==> r.error.None?
    ensures a.defaultLocale.Some? && r.error.None? && Wf(a.defaultLocale.value.checks) ==>
      forall k :: Has(a.defaultLocale.value.checks, k) ==>
        Get(r.audit.data.checks, k) == Some(MergeCheckLocale(Get(a.data.checks, k).value, Get(a.defaultLocale.value.checks, k).value))
    ensures a.defaultLocale.Some? && r.error.None? && Wf(a.defaultLocale.value.rules) ==>
      forall k :: Has(a.defaultLocale.value.rules, k) ==>
        Get(r.audit.data.rules, k) == Some(MergeRuleLocale(Get(a.data.rules, k).value, Get(a.defaultLocale.value.rules, k).value))
  {
    match a.defaultLocale
    case None => Applied(a, None)
    case Some(loc) => ApplyLocale(a, loc)
  }

  /** Locales applied one after another, each on the state the previous one left (thrown or not). */
  function ApplyAll(a: Audit, locs: seq<LocaleSpec>): Audit
    decreases |locs|
  {
    if |locs| == 0 then a else ApplyAll(ApplyLocale(a, locs[0]).audit, locs[1..])
  }

  /**
   * The snapshot is taken by the first application only: after any non-empty series of
   * applications it is the state of the metadata before the first one.
   */
  lemma {:induction false} SnapshotIsFirstState(a: Audit, locs: seq<LocaleSpec>)
    requires a.defaultLocale.None? && |locs| > 0
    ensures ApplyAll(a, locs).defaultLocale == Some(Snapshot(a.data))
  {
    var a1 := ApplyLocale(a, locs[0]).audit;
    SnapshotKept(a1, locs[1..]);
  }

  lemma {:induction false} SnapshotKept(a: Audit, locs: seq<LocaleSpec>)
    requires a.defaultLocale.Some?
    ensures ApplyAll(a, locs).defaultLocale == a.defaultLocale
    decreases |locs|
  {
    if |locs| > 0 {
      SnapshotKept(ApplyLocale(a, locs[0]).audit, locs[1..]);
    }
  }

  /** The locale that overrides only the `fail` message of one check. */
  function FailOnly(id: string, f: Message): LocaleSpec {
    LocaleSpec([(id, CheckLocale(None, Some(f), NoIncomplete))], [])
  }

  lemma KnownSnapshot(d: Data, d': Data)
    requires Keys(d'.checks) == Keys(d.checks) && Keys(d'.rules) == Keys(d.rules)
    ensures KnownIds(d', Snapshot(d))
  {
    var s := Snapshot(d);
    forall i | 0 <= i < |s.checks| ensures Has(d'.checks, s.checks[i].0) {
      assert Keys(s.checks)[i] == Keys(d'.checks)[i];
    }
    forall i | 0 <= i < |s.rules| ensures Has(d'.rules, s.rules[i].0) {
      assert Keys(s.rules)[i] == Keys(d'.rules)[i];
    }
  }

  /** After an application without error, each check entry of the locale is merged into the metadata. */
  lemma ApplyLocaleCheck(a: Audit, loc: LocaleSpec, i: nat)
    requires Wf(loc.checks) && KnownIds(a.data, loc) && i < |loc.checks|
    ensures Get(ApplyLocale(a, loc).audit.data.checks, loc.checks[i].0)
         == Some(MergeCheckLocale(Get(a.data.checks, loc.checks[i].0).value, loc.checks[i].1))
  {
    var a1 := SetDefaultLocale(a);
    assert a1.data == a.data;
    ApplyEntriesGet(a1.data.checks, loc.checks, MergeCheckLocale, "check", i);
  }

  /** The message algebra behind a fail-only override followed by a reset. */
  lemma FailOverrideThenRestore(orig: CheckMeta, f: Message)
    requires orig.messages.incomplete.Keyed? ==> Wf(orig.messages.incomplete.entries)
    ensures var mid := MergeCheckLocale(orig, CheckLocale(None, Some(f), NoIncomplete));
      var now := MergeCheckLocale(mid, CheckLocale(orig.messages.pass, orig.messages.fail, orig.messages.incomplete));
      && (orig.messages.fail.Some? ==> Text(now.messages.fail) == Text(orig.messages.fail))
      && (orig.messages.fail.None? ==> now.messages.fail == Some(Compiled(f.source)))
      && Text(now.messages.pass) == Text(orig.messages.pass)
      && now.messages.incomplete == orig.messages.incomplete
      && now.impact == orig.impact && now.rest == orig.rest
  {
    if orig.messages.incomplete.Keyed? {
      SpreadSelf(orig.messages.incomplete.entries);
    }
  }

  /**
   * The state after a fail-only override of a known check, and the reset applied to it:
   * the snapshot's entry for that check is merged into the overridden metadata.
   */
  lemma {:induction false} FailOverrideThenReset(a: Audit, id: string, f: Message)
    returns (mid: CheckMeta, now: CheckMeta)
    requires a.defaultLocale.None?
    requires Wf(a.data.checks) && Wf(a.data.rules) && Has(a.data.checks, id)
    ensures var orig := Get(a.data.checks, id).value;
      mid == MergeCheckLocale(orig, CheckLocale(None, Some(f), NoIncomplete))
      && now == MergeCheckLocale(mid, CheckLocale(orig.messages.pass, orig.messages.fail, orig.messages.incomplete))
    ensures ApplyLocale(a, FailOnly(id, f)).error.None?
    ensures ResetLocale(ApplyLocale(a, FailOnly(id, f)).audit).error.None?
    ensures Get(ResetLocale(ApplyLocale(a, FailOnly(id, f)).audit).audit.data.checks, id) == Some(now)
  {
    var orig := Get(a.data.checks, id).value;
    var snap := Snapshot(a.data);
    var loc := FailOnly(id, f);
    assert KnownIds(a.data, loc);
    var a1 := ApplyLocale(a, loc).audit;
    ApplyLocaleCheck(a, loc, 0);
    mid := MergeCheckLocale(orig, loc.checks[0].1);
    KnownSnapshot(a.data, a1.data);
    var k :| 0 <= k < |a.data.checks| && a.data.checks[k].0 == id;
    GetWf(a.data.checks, id, k);
    assert snap.checks[k] == (id, CheckLocale(orig.messages.pass, orig.messages.fail, orig.messages.incomplete));
    assert a1.defaultLocale == Some(snap);
    ApplyLocaleCheck(a1, snap, k);
    now := MergeCheckLocale(mid, snap.checks[k].1);
  }

  /**
   * Overriding only the `fail` message of a known check and then resetting brings that
   * check's messages back: `fail` and `pass` render their original templates again, and
   * `incomplete`, impact and every other property are exactly the originals. (The reset
   * hands the templates back through the compiler, so a `Raw` original comes back
   * `Compiled` with the same source.)
   */
  lemma ResetRestoresFailOverride(a: Audit, id: string, f: Message)
    requires a.defaultLocale.None?
    requires Wf(a.data.checks) && Wf(a.data.rules) && Has(a.data.checks, id)
    requires var orig := Get(a.data.checks, id).value;
      orig.messages.incomplete.Keyed? ==> Wf(orig.messages.incomplete.entries)
    ensures var a1 := ApplyLocale(a, FailOnly(id, f));
      var a2 := ResetLocale(a1.audit);
      var orig := Get(a.data.checks, id).value;
      && a1.error.None? && a2.error.None?
      && Get(a2.audit.data.checks, id).Some?
      && var now := Get(a2.audit.data.checks, id).value;
      && (orig.messages.fail.Some? ==> Text(now.messages.fail) == Text(orig.messages.fail))
      && Text(now.messages.pass) == Text(orig.messages.pass)
      && now.messages.incomplete == orig.messages.incomplete
      && now.impact == orig.impact && now.rest == orig.rest
  {
    var _, _ := FailOverrideThenReset(a, id, f);
    FailOverrideThenRestore(Get(a.data.checks, id).value, f);
  }

  /**
   * Reset restores only what the snapshot holds: a `fail` message the check did not have
   * before the first locale survives the reset.
   */
  lemma ResetKeepsAddedFail(a: Audit, id: string, f: Message)
    requires a.defaultLocale.None?
    requires Wf(a.data.checks) && Wf(a.data.rules) && Has(a.data.checks, id)
    requires Get(a.data.checks, id).value.messages.fail.None?
    ensures var a2 := ResetLocale(ApplyLocale(a, FailOnly(id, f)).audit);
      Get(a2.audit.data.checks, id).Some?
      && Get(a2.audit.data.checks, id).value.messages.fail == Some(Compiled(f.source))
  {
    var _, _ := FailOverrideThenReset(a, id, f);
    var orig := Get(a.data.checks, id).value;
    var mid := MergeCheckLocale(orig, CheckLocale(None, Some(f), NoIncomplete));
    assert mid.messages.fail == Some(Compiled(f.source));
  }

  /** Applying locales, thrown or not, never adds or removes a check or rule id. */
  lemma {:induction false} ApplyAllKeys(a: Audit, locs: seq<LocaleSpec>)
    ensures Keys(ApplyAll(a, locs).data.checks) == Keys(a.data.checks)
    ensures Keys(ApplyAll(a, locs).data.rules) == Keys(a.data.rules)
    decreases |locs|
  {
    if |locs| > 0 {
      ApplyAllKeys(ApplyLocale(a, locs[0]).audit, locs[1..]);
    }
  }

  /** A check's `pass` and `fail` render the templates it had, where it had them. */
  predicate CheckTextRestored(orig: CheckMeta, now: CheckMeta) {
    && (orig.messages.pass.Some? ==> Text(now.messages.pass) == Text(orig.messages.pass))
    && (orig.messages.fail.Some? ==> Text(now.messages.fail) == Text(orig.messages.fail))
  }

  /** A rule's `help` and `description` render the templates it had, where it had them. */
  predicate RuleTextRestored(orig: RuleMeta, now: RuleMeta) {
    && (orig.help.Some? ==> Text(now.help) == Text(orig.help))
    && (orig.description.Some? ==> Text(now.description) == Text(orig.description))
  }

  /**
   * Whatever locales were applied to a fresh audit, in whatever order and whether or not
   * they threw, a reset succeeds and every check and rule renders its original `pass`,
   * `fail`, `help` and `description` templates again, wherever it had one.
   */
  lemma ResetAfterLocales(a: Audit, locs: seq<LocaleSpec>)
    requires a.defaultLocale.None?
    requires Wf(a.data.checks) && Wf(a.data.rules)
    ensures var r := ResetLocale(ApplyAll(a, locs));
      && r.error.None?
      && (forall k :: Has(a.data.checks, k) ==>
            Has(r.audit.data.checks, k) && CheckTextRestored(Get(a.data.checks, k).value, Get(r.audit.data.checks, k).value))
      && (forall k :: Has(a.data.rules, k) ==>
            Has(r.audit.data.rules, k) && RuleTextRestored(Get(a.data.rules, k).value, Get(r.audit.data.rules, k).value))
  {
    var b := ApplyAll(a, locs);
    var r := ResetLocale(b);
    if |locs| == 0 {
      assert b == a;
    } else {
      var snap := Snapshot(a.data);
      SnapshotIsFirstState(a, locs);
      ApplyAllKeys(a, locs);
      KnownSnapshot(a.data, b.data);
      assert r.error.None?;
      forall k | Has(a.data.checks, k)
        ensures Has(r.audit.data.checks, k) && CheckTextRestored(Get(a.data.checks, k).value, Get(r.audit.data.checks, k).value)
      {
        HasKeys(a.data.checks, snap.checks, k);
        HasKeys(a.data.checks, b.data.checks, k);
      }
      forall k | Has(a.data.rules, k)
        ensures Has(r.audit.data.rules, k) && RuleTextRestored(Get(a.data.rules, k).value, Get(r.audit.data.rules, k).value)
      {
        HasKeys(a.data.rules, snap.rules, k);
        HasKeys(a.data.rules, b.data.rules, k);
      }
    }
  }

  /** Registering the same rule spec a second time changes nothing. */
  lemma AddRuleTwice(a: Audit, spec: RuleSpec)
    ensures AddRule(AddRule(a, spec), spec) == AddRule(a, spec)
  {
    var a1 := AddRule(a, spec);
    if spec.metadata.Some? {
      PutSame(a1.data.rules, spec.id, spec.metadata.value);
    }
    RegisterRuleTwice(a.rules, spec);
  }

  /** Registering the same check spec a second time changes nothing. */
  lemma AddCheckTwice(a: Audit, spec: CheckSpec)
    ensures AddCheck(AddCheck(a, spec), spec) == AddCheck(a, spec)
  {
    var a1 := AddCheck(a, spec);
    var a2 := AddCheck(a1, spec);
    if spec.metadata.Some? {
      var m := spec.metadata.value;
      PutSame(a1.data.checks, spec.id, m.(messages := TransformMessages(m.messages)));
    }
    assert a2.data == a1.data;
    var s0 := if spec.id in a.checks then a.checks[spec.id].settings else map[];
    assert a1.checks[spec.id].settings == s0 + spec.settings;
    assert s0 + spec.settings + spec.settings == s0 + spec.settings;
    assert a2.checks[spec.id] == a1.checks[spec.id];
    assert a2.checks == a1.checks;
  }
}
