/**
 * `Audit.run` and `Audit.after` as their sequential outcome. The queue that runs rules
 * concurrently is abstracted away: each rule's own `run` settles to a result or a
 * rejection, the settled values are collected in registration order, and falsy results
 * are dropped. `ruleShouldRun`, `Rule.run` and `Rule.after` are parameters.
 */
module Run {
  import opened JsValues
  import opened Audit
  import opened Options
  import opened Results

  /** What a rule's own `run` settles to: a result (`None` when it is falsy) or a rejection. */
  datatype RuleOutcome = Resolved(result: Option<RuleResult>) | Rejected(message: string)

  /** `ruleShouldRun` with the run's context fixed. */
  type ShouldRun = (Rule, RunOptions) -> bool

  /** `Rule.run` with the run's context fixed. */
  type RuleRun = (Rule, RunOptions) -> RuleOutcome

  /** `Rule.after`. */
  type RuleAfter = (Rule, RuleResult, RunOptions) -> RuleResult

  /** The result a rule that failed to run reports when `debug` is off. */
  function ErrorResult(rule: Rule, message: string): RuleResult {
    RuleResult(rule.id, CantTell, [], Some(message))
  }

  /** A rule that is run and rejects. */
  predicate Rejects(rule: Rule, opts: RunOptions, shouldRun: ShouldRun, ruleRun: RuleRun) {
    shouldRun(rule, opts) && ruleRun(rule, opts).Rejected?
  }

  /** What one rule contributes to the queue's results when `debug` is off. */
  function Slot(rule: Rule, opts: RunOptions, shouldRun: ShouldRun, ruleRun: RuleRun): Option<RuleResult> {
    if !shouldRun(rule, opts) then None
    else match ruleRun(rule, opts)
      case Resolved(res) => res
      case Rejected(m) => Some(ErrorResult(rule, m))
  }

  /** The present values of a sequence of optional results, in order. */
  function Compact(xs: seq<Option<RuleResult>>): (r: seq<RuleResult>)
    ensures |r| <= |xs|
  {
    if |xs| == 0 then []
    else (if xs[0].Some? then [xs[0].value] else []) + Compact(xs[1..])
  }

  /** One rule's settled outcome: a rejection fails the run only under `debug`. */
  function Step(rule: Rule, opts: RunOptions, shouldRun: ShouldRun, ruleRun: RuleRun): (r: Result<Option<RuleResult>>)
    ensures r.Err? <==> opts.debug && Rejects(rule, opts, shouldRun, ruleRun)
    ensures r.Err? ==> r.message == ruleRun(rule, opts).message
    ensures r.Ok? ==> r.value == Slot(rule, opts, shouldRun, ruleRun)
  {
    if opts.debug && Rejects(rule, opts, shouldRun, ruleRun) then Err(ruleRun(rule, opts).message)
    else Ok(Slot(rule, opts, shouldRun, ruleRun))
  }

  function AsList(x: Option<RuleResult>): seq<RuleResult> {
    if x.Some? then [x.value] else []
  }

  /**
   * The rules in registration order, each run when it should run: a rejection fails the
   * whole run under `debug` and otherwise becomes a CANTTELL result carrying the message;
   * falsy results are dropped.
   */
  function RunRules(rules: seq<Rule>, opts: RunOptions, shouldRun: ShouldRun, ruleRun: RuleRun): (r: Result<seq<RuleResult>>)
    ensures r.Err? <==> opts.debug && exists i :: 0 <= i < |rules| && Rejects(rules[i], opts, shouldRun, ruleRun)
    ensures r.Ok? ==> |r.value| <= |rules|
    decreases |rules|
  {
    if |rules| == 0 then Ok([])
    else
      var head :- Step(rules[0], opts, shouldRun, ruleRun);
      var tail :- RunRules(rules[1..], opts, shouldRun, ruleRun);
      assert forall j :: 1 <= j < |rules| ==> rules[j] == rules[1..][j - 1];
      Ok(AsList(head) + tail)
  }

  /** Under `debug` the run fails with the message of the first rule, in registration order, that rejects. */
  lemma {:induction false} FirstRejectionWins(rules: seq<Rule>, opts: RunOptions, shouldRun: ShouldRun, ruleRun: RuleRun)
    ensures var r := RunRules(rules, opts, shouldRun, ruleRun);
      r.Err? ==> exists i :: (0 <= i < |rules| && Rejects(rules[i], opts, shouldRun, ruleRun)
                             && r.message == ruleRun(rules[i], opts).message
                             && forall j :: 0 <= j < i ==> !Rejects(rules[j], opts, shouldRun, ruleRun))
    decreases |rules|
  {
    var r := RunRules(rules, opts, shouldRun, ruleRun);
    if |rules| > 0 && r.Err? && !Step(rules[0], opts, shouldRun, ruleRun).Err? {
      FirstRejectionWins(rules[1..], opts, shouldRun, ruleRun);
      var i :| 0 <= i < |rules[1..]| && Rejects(rules[1..][i], opts, shouldRun, ruleRun)
               && r.message == ruleRun(rules[1..][i], opts).message
               && forall j :: 0 <= j < i ==> !Rejects(rules[1..][j], opts, shouldRun, ruleRun);
      assert forall j :: 1 <= j <= i ==> rules[j] == rules[1..][j - 1];
      assert rules[i + 1] == rules[1..][i];
    }
  }

  /**
   * `run`: the options are normalised first (an error there is the run's error) and the
   * normalised options are what every rule sees.
   */
  function Run(a: Audit, options: RunOptions, shouldRun: ShouldRun, ruleRun: RuleRun): (r: Result<seq<RuleResult>>)
    ensures NormalizeOptions(a.rules, options).Err? ==> r == Err(NormalizeOptions(a.rules, options).message)
    ensures r.Ok? ==> NormalizeOptions(a.rules, options).Ok? && |r.value| <= |a.rules|
    ensures NormalizeOptions(a.rules, options).Ok? && !options.debug ==> r.Ok?
  {
    var opts :- NormalizeOptions(a.rules, options);
    RunRules(a.rules, opts, shouldRun, ruleRun)
  }

  /** Without `debug` the run never fails: it is every rule's slot, in order, with the empty slots dropped. */
  lemma {:induction false} RunRulesSlots(rules: seq<Rule>, opts: RunOptions, shouldRun: ShouldRun, ruleRun: RuleRun)
    requires !opts.debug
    ensures RunRules(rules, opts, shouldRun, ruleRun)
         == Ok(Compact(seq(|rules|, i requires 0 <= i < |rules| => Slot(rules[i], opts, shouldRun, ruleRun))))
    decreases |rules|
  {
    var slots := seq(|rules|, i requires 0 <= i < |rules| => Slot(rules[i], opts, shouldRun, ruleRun));
    if |rules| > 0 {
      RunRulesSlots(rules[1..], opts, shouldRun, ruleRun);
      assert slots[1..] == seq(|rules[1..]|, i requires 0 <= i < |rules[1..]| => Slot(rules[1..][i], opts, shouldRun, ruleRun));
    }
  }

  /** Two runs in sequence: the first error wins, otherwise the results are concatenated. */
  function Then(rx: Result<seq<RuleResult>>, ry: Result<seq<RuleResult>>): Result<seq<RuleResult>> {
    if rx.Err? then rx else if ry.Err? then ry else Ok(rx.value + ry.value)
  }

  /** Running one rule is its step, as a list. */
  lemma RunOne(rule: Rule, opts: RunOptions, shouldRun: ShouldRun, ruleRun: RuleRun)
    ensures var st := Step(rule, opts, shouldRun, ruleRun);
      RunRules([rule], opts, shouldRun, ruleRun) == if st.Err? then Err(st.message) else Ok(AsList(st.value))
  {
    assert [rule][1..] == [];
    assert RunRules([rule][1..], opts, shouldRun, ruleRun) == Ok([]);
    var st := Step(rule, opts, shouldRun, ruleRun);
    if st.Ok? {
      assert AsList(st.value) + [] == AsList(st.value);
    }
  }

  /** Running a concatenation of rule lists is running the two parts in sequence. */
  lemma {:induction false} RunRulesAppend(xs: seq<Rule>, ys: seq<Rule>, opts: RunOptions, shouldRun: ShouldRun, ruleRun: RuleRun)
    ensures RunRules(xs + ys, opts, shouldRun, ruleRun) == Then(RunRules(xs, opts, shouldRun, ruleRun), RunRules(ys, opts, shouldRun, ruleRun))
    decreases |xs|
  {
    if |xs| == 0 {
      assert xs + ys == ys;
      var ry := RunRules(ys, opts, shouldRun, ruleRun);
      if ry.Ok? {
        assert [] + ry.value == ry.value;
      }
    } else {
      assert (xs + ys)[1..] == xs[1..] + ys;
      assert (xs + ys)[0] == xs[0];
      RunRulesAppend(xs[1..], ys, opts, shouldRun, ruleRun);
      var st := Step(xs[0], opts, shouldRun, ruleRun);
      var rx := RunRules(xs[1..], opts, shouldRun, ruleRun);
      var ry := RunRules(ys, opts, shouldRun, ruleRun);
      if st.Ok? && rx.Ok? && ry.Ok? {
        assert AsList(st.value) + (rx.value + ry.value) == (AsList(st.value) + rx.value) + ry.value;
      }
    }
  }

  /** A rule that should not run contributes nothing, whatever its own `run` would do. */
  lemma SkippedRuleInvisible(xs: seq<Rule>, rule: Rule, ys: seq<Rule>, opts: RunOptions, shouldRun: ShouldRun, ruleRun: RuleRun)
    requires !shouldRun(rule, opts)
    ensures RunRules(xs + [rule] + ys, opts, shouldRun, ruleRun) == RunRules(xs + ys, opts, shouldRun, ruleRun)
  {
    RunRulesAppend(xs + [rule], ys, opts, shouldRun, ruleRun);
    RunRulesAppend(xs, [rule], opts, shouldRun, ruleRun);
    RunRulesAppend(xs, ys, opts, shouldRun, ruleRun);
    RunOne(rule, opts, shouldRun, ruleRun);
    var rx := RunRules(xs, opts, shouldRun, ruleRun);
    if rx.Ok? {
      assert rx.value + [] == rx.value;
    }
  }

  /** Without `debug`, a rule that is run and rejects is reported as CANTTELL with its message, after what the rules before it report. */
  lemma RejectionReported(xs: seq<Rule>, rule: Rule, ys: seq<Rule>, opts: RunOptions, shouldRun: ShouldRun, ruleRun: RuleRun)
    requires !opts.debug && Rejects(rule, opts, shouldRun, ruleRun)
    ensures var r := RunRules(xs + [rule] + ys, opts, shouldRun, ruleRun);
      r.Ok? && |r.value| > |RunRules(xs, opts, shouldRun, ruleRun).value|
      && r.value[|RunRules(xs, opts, shouldRun, ruleRun).value|] == ErrorResult(rule, ruleRun(rule, opts).message)
  {
    RunRulesAppend(xs + [rule], ys, opts, shouldRun, ruleRun);
    RunRulesAppend(xs, [rule], opts, shouldRun, ruleRun);
    RunOne(rule, opts, shouldRun, ruleRun);
  }

  /** The message `after` throws for a result whose rule is not registered. */
  const UnknownRuleMessage := "Result for unknown rule. You may be running mismatch aXe-core versions"

  /**
   * `after`: each result is handed to the `after` of the first registered rule with its id;
   * a result whose id no rule has is an error.
   */
  function After(rules: seq<Rule>, results: seq<RuleResult>, opts: RunOptions, ruleAfter: RuleAfter): (r: Result<seq<RuleResult>>)
    ensures r.Ok? <==> forall k :: 0 <= k < |results| ==> GetRule(rules, results[k].id).Some?
    ensures r.Err? ==> r.message == UnknownRuleMessage
    ensures r.Ok? ==> |r.value| == |results|
                      && forall k :: 0 <= k < |results| ==>
                           r.value[k] == ruleAfter(GetRule(rules, results[k].id).value, results[k], opts)
    decreases |results|
  {
    if |results| == 0 then Ok([])
    else
      match GetRule(rules, results[0].id)
      case None => Err(UnknownRuleMessage)
      case Some(rule) =>
        var tail := After(rules, results[1..], opts, ruleAfter);
        if tail.Err? then
          assert !forall k :: 0 <= k < |results| ==> GetRule(rules, results[k].id).Some? by {
            var k :| 0 <= k < |results[1..]| && GetRule(rules, results[1..][k].id).None?;
            assert results[k + 1] == results[1..][k];
          }
          tail
        else
          var r := [ruleAfter(rule, results[0], opts)] + tail.value;
          assert forall k :: 0 <= k < |results| ==>
            GetRule(rules, results[k].id).Some? && r[k] == ruleAfter(GetRule(rules, results[k].id).value, results[k], opts) by {
            forall k | 0 <= k < |results|
              ensures GetRule(rules, results[k].id).Some? && r[k] == ruleAfter(GetRule(rules, results[k].id).value, results[k], opts)
            {
              if k > 0 {
                assert r[k] == tail.value[k - 1] && results[k] == results[1..][k - 1];
              }
            }
          }
          Ok(r)
  }
}
