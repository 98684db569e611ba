/**
 * Validation and normalisation of run options against the rule registry
 * (`Audit.prototype.normalizeOptions` in lib/core/base/audit.js).
 */
module Options {
  import opened JsValues
  import opened Audit

  /** The JavaScript values `runOnly.value` and `runOnly.values` can hold, as far as they matter here. */
  datatype JsValue = Undefined | Str(s: string) | Strings(items: seq<string>) | OtherValue(truthy: bool)

  predicate Truthy(v: JsValue) {
    match v
    case Undefined => false
    case Str(s) => s != ""
    case Strings(_) => true
    case OtherValue(t) => t
  }

  /**
   * `options.runOnly`: anything that is not an object (left untouched), an array of tags,
   * or an object with `type`, `value` and `values` properties (`type` is `None` when
   * undefined).
   */
  datatype RunOnly = NotAnObject | TagList(tags: seq<string>) | Filter(kind: Option<string>, value: JsValue, values: JsValue)

  /** Run options; `ruleKeys` lists the keys of `options.rules` when that is an object. */
  datatype RunOptions = RunOptions(runOnly: RunOnly, ruleKeys: Option<seq<string>>, debug: bool)

  ghost predicate Registered(rules: seq<Rule>, id: string) {
    exists i :: 0 <= i < |rules| && rules[i].id == id
  }

  ghost predicate Tagged(rules: seq<Rule>, tag: string) {
    exists i :: 0 <= i < |rules| && tag in rules[i].tags
  }

  /** `values` after `value` has been renamed to it (only when `value` is truthy and `values` is not). */
  function EffectiveValues(value: JsValue, values: JsValue): JsValue {
    if Truthy(value) && !Truthy(values) then value else values
  }

  function EffectiveValue(value: JsValue, values: JsValue): JsValue {
    if Truthy(value) && !Truthy(values) then Undefined else value
  }

  predicate IsRuleKind(kind: Option<string>) {
    kind == Some("rule") || kind == Some("rules")
  }

  predicate IsTagKind(kind: Option<string>) {
    kind == Some("tag") || kind == Some("tags") || kind == None
  }

  /** The first id with no registered rule, if any. */
  function FirstUnknownRule(rules: seq<Rule>, ids: seq<string>): (r: Option<string>)
    ensures r.None? <==> forall i :: 0 <= i < |ids| ==> Registered(rules, ids[i])
    ensures r.Some? ==> r.value in ids && !Registered(rules, r.value)
    ensures r.Some? ==> exists i :: 0 <= i < |ids| && ids[i] == r.value
                                    && forall j :: 0 <= j < i ==> Registered(rules, ids[j])
  {
    if |ids| == 0 then None
    else if GetRule(rules, ids[0]).None? then Some(ids[0])
    else
      var r := FirstUnknownRule(rules, ids[1..]);
      assert forall i :: 1 <= i < |ids| ==> ids[i] == ids[1..][i - 1];
      assert r.Some? ==> exists i :: 0 <= i < |ids| && ids[i] == r.value
                                     && forall j :: 0 <= j < i ==> Registered(rules, ids[j]) by {
        if r.Some? {
          var i :| 0 <= i < |ids[1..]| && ids[1..][i] == r.value
                   && forall j :: 0 <= j < i ==> Registered(rules, ids[1..][j]);
          assert forall j :: 0 <= j < i + 1 ==> Registered(rules, ids[j]) by {
            forall j | 0 <= j < i + 1 ensures Registered(rules, ids[j]) {
              if j > 0 {
                assert ids[j] == ids[1..][j - 1];
              }
            }
          }
        }
      }
      r
  }

  /** The elements of `xs` that are not in `tags` (`filter(tag => !rule.tags.includes(tag))`). */
  function Without(xs: seq<string>, tags: seq<string>): (r: seq<string>)
    ensures forall t :: t in r <==> t in xs && t !in tags
  {
    if |xs| == 0 then []
    else (if xs[0] in tags then [] else [xs[0]]) + Without(xs[1..], tags)
  }

  /** The `reduce` over the rules: the requested tags that no rule carries. */
  function UnmatchedTags(rules: seq<Rule>, unmatched: seq<string>): (r: seq<string>)
    ensures forall t :: t in r <==> t in unmatched && !Tagged(rules, t)
    decreases |rules|
  {
    if |rules| == 0 then unmatched
    else
      var next := if |unmatched| > 0 then Without(unmatched, rules[0].tags) else unmatched;
      var r := UnmatchedTags(rules[1..], next);
      assert forall t :: Tagged(rules, t) <==> t in rules[0].tags || Tagged(rules[1..], t) by {
        forall t ensures Tagged(rules, t) <==> t in rules[0].tags || Tagged(rules[1..], t) {
          if Tagged(rules, t) && t !in rules[0].tags {
            var i :| 0 <= i < |rules| && t in rules[i].tags;
            assert rules[1..][i - 1] == rules[i];
          }
          if Tagged(rules[1..], t) {
            var i :| 0 <= i < |rules[1..]| && t in rules[1..][i].tags;
            assert rules[1..][i] == rules[i + 1];
          }
        }
      }
      r
  }

  function Join(xs: seq<string>, sep: string): string {
    if |xs| == 0 then ""
    else if |xs| == 1 then xs[0]
    else xs[0] + sep + Join(xs[1..], sep)
  }

  /** The tag filter and its membership rule: every requested tag is carried by some rule. */
  function CheckTags(rules: seq<Rule>, value: JsValue, tags: seq<string>): (r: Result<RunOnly>)
    ensures r.Ok? <==> forall t :: t in tags ==> Tagged(rules, t)
    ensures r.Ok? ==> r.value == Filter(Some("tag"), value, Strings(tags))
  {
    var unmatched := UnmatchedTags(rules, tags);
    if |unmatched| != 0 then
      assert unmatched[0] in unmatched;
      Err("Could not find tags `" + Join(unmatched, "`, `") + "`")
    else
      assert forall t :: t in tags ==> t !in unmatched;
      Ok(Filter(Some("tag"), value, Strings(tags)))
  }

  /** The shape and membership rules for `runOnly`. */
  ghost predicate RunOnlyAcceptable(rules: seq<Rule>, runOnly: RunOnly) {
    match runOnly
    case NotAnObject => true
    case TagList(tags) => |tags| > 0 && forall t :: t in tags ==> Tagged(rules, t)
    case Filter(kind, value, values) =>
      var vs := EffectiveValues(value, values);
      && vs.Strings? && |vs.items| > 0
      && (IsRuleKind(kind) || IsTagKind(kind))
      && (IsRuleKind(kind) ==> forall id :: id in vs.items ==> Registered(rules, id))
      && (IsTagKind(kind) ==> forall t :: t in vs.items ==> Tagged(rules, t))
  }

  /** The normalised form: an array becomes a tag filter; `rules` becomes `rule`, `tags`/undefined `tag`. */
  ghost predicate NormalFormOf(runOnly: RunOnly, r: RunOnly) {
    match runOnly
    case NotAnObject => r == NotAnObject
    case TagList(tags) => r == Filter(Some("tag"), Undefined, Strings(tags))
    case Filter(kind, value, values) =>
      r == Filter(if IsRuleKind(kind) then Some("rule") else Some("tag"),
                  EffectiveValue(value, values), EffectiveValues(value, values))
  }

  function NormalizeRunOnly(rules: seq<Rule>, runOnly: RunOnly): (r: Result<RunOnly>)
    ensures r.Ok? <==> RunOnlyAcceptable(rules, runOnly)
    ensures r.Ok? ==> NormalFormOf(runOnly, r.value)
    ensures runOnly.Filter? && !(EffectiveValues(runOnly.value, runOnly.values).Strings? && |EffectiveValues(runOnly.value, runOnly.values).items| > 0)
      ==> r == Err("runOnly.values must be a non-empty array")
  {
    match runOnly
    case NotAnObject => Ok(runOnly)
    case TagList(tags) =>
      if |tags| == 0 then Err("runOnly.values must be a non-empty array")
      else CheckTags(rules, Undefined, tags)
    case Filter(kind, value, values) =>
      var vs := EffectiveValues(value, values);
      var v := EffectiveValue(value, values);
      if !(vs.Strings? && |vs.items| > 0) then Err("runOnly.values must be a non-empty array")
      else if IsRuleKind(kind) then
        match FirstUnknownRule(rules, vs.items)
        case Some(id) => Err("unknown rule `" + id + "` in options.runOnly")
        case None => Ok(Filter(Some("rule"), v, vs))
      else if IsTagKind(kind) then CheckTags(rules, v, vs.items)
      else Err("Unknown runOnly type '" + kind.value + "'")
  }

  /**
   * `normalizeOptions`: validates `runOnly` and then the keys of `rules`, throwing on the
   * first problem, and returns the options with `runOnly` in normal form.
   */
  function NormalizeOptions(rules: seq<Rule>, options: RunOptions): (r: Result<RunOptions>)
    ensures r.Ok? <==> RunOnlyAcceptable(rules, options.runOnly)
                       && (options.ruleKeys.Some? ==> forall id :: id in options.ruleKeys.value ==> Registered(rules, id))
    ensures r.Ok? ==> NormalFormOf(options.runOnly, r.value.runOnly)
    ensures r.Ok? ==> r.value.ruleKeys == options.ruleKeys && r.value.debug == options.debug
  {
    var runOnly :- NormalizeRunOnly(rules, options.runOnly);
    if options.ruleKeys.Some? && FirstUnknownRule(rules, options.ruleKeys.value).Some? then
      Err("unknown rule `" + FirstUnknownRule(rules, options.ruleKeys.value).value + "` in options.rules")
    else
      Ok(options.(runOnly := runOnly))
  }

  /** The array shorthand is accepted exactly when the structured tag filter with the same values is. */
  lemma ShorthandEquivalent(rules: seq<Rule>, tags: seq<string>, ruleKeys: Option<seq<string>>, debug: bool)
    ensures var short := NormalizeOptions(rules, RunOptions(TagList(tags), ruleKeys, debug));
      var long := NormalizeOptions(rules, RunOptions(Filter(Some("tag"), Undefined, Strings(tags)), ruleKeys, debug));
      short == long
  {
  }
}
