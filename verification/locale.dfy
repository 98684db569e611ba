/**
 * Human-readable messages of checks and rules and the way a locale override is merged
 * into them (lib/core/base/audit.js, `mergeCheckLocale`, `mergeRuleLocale`,
 * `_applyCheckLocale`, `_applyRuleLocale`).
 */
module Locale {
  import opened JsValues
  import opened Dict

  /**
   * A message template. `Raw` is a template string not yet compiled; `Compiled` is
   * the function the template compiler (doT) returns for the same source text. The
   * compiler itself is not modelled: only which messages have been through it.
   */
  datatype Message = Raw(source: string) | Compiled(source: string)

  /** The `incomplete` message of a check: absent, one template, or templates keyed by reason. */
  datatype Incomplete = NoIncomplete | Single(msg: Message) | Keyed(entries: Dict<Message>)

  datatype Messages = Messages(pass: Option<Message>, fail: Option<Message>, incomplete: Incomplete)

  /** Check metadata (`audit.data.checks[id]`); `rest` holds every other property. */
  datatype CheckMeta = CheckMeta(impact: Option<string>, messages: Messages, rest: map<string, string>)

  /** Rule metadata (`audit.data.rules[id]`); `helpUrl` is `None` when it is not a string. */
  datatype RuleMeta = RuleMeta(
    help: Option<Message>,
    description: Option<Message>,
    helpUrl: Option<string>,
    rest: map<string, string>)

  /** One check's entry of a locale (the `axe.CheckLocale` shape). */
  datatype CheckLocale = CheckLocale(pass: Option<Message>, fail: Option<Message>, incomplete: Incomplete)

  /** One rule's entry of a locale. */
  datatype RuleLocale = RuleLocale(help: Option<Message>, description: Option<Message>)

  /** A locale: check entries and rule entries, each keyed by id in key order. */
  datatype LocaleSpec = LocaleSpec(checks: Dict<CheckLocale>, rules: Dict<RuleLocale>)

  /** The template source a message renders, whether or not it has been compiled. */
  function Text(m: Option<Message>): Option<string> {
    match m
    case Some(msg) => Some(msg.source)
    case None => None
  }

  /**
   * `given || current` after a string `given` has been compiled: a compiled template is
   * a function and therefore truthy even when its source is empty, so any present
   * override wins.
   */
  function Override(current: Option<Message>, given: Option<Message>): (r: Option<Message>)
    ensures given.None? ==> r == current
    ensures given.Some? ==> r == Some(Compiled(given.value.source))
  {
    match given
    case Some(m) => Some(Compiled(m.source))
    case None => current
  }

  function DigitChar(n: nat): char
    requires n < 10
  {
    "0123456789"[n]
  }

  /** The decimal spelling of `n`, the key JavaScript gives the `n`-th character of a spread string. */
  function DecimalString(n: nat): (s: string)
    ensures |s| > 0
  {
    if n < 10 then [DigitChar(n)] else DecimalString(n / 10) + [DigitChar(n % 10)]
  }

  /**
   * The own enumerable properties of a value spread into an object literal: none for an
   * absent value or a function, one per character (keyed by index) for a string, and
   * the entries themselves for an object.
   */
  function SpreadSource(inc: Incomplete): Dict<Message> {
    match inc
    case NoIncomplete => []
    case Single(Compiled(_)) => []
    case Single(Raw(s)) => seq(|s|, i requires 0 <= i < |s| => (DecimalString(i), Raw([s[i]])))
    case Keyed(entries) => entries
  }

  /**
   * Merges a check's locale entry `b` into its metadata `a`, favouring `b`.
   */
  function MergeCheckLocale(a: CheckMeta, b: CheckLocale): (r: CheckMeta)
    ensures r.impact == a.impact && r.rest == a.rest
    ensures b.pass.None? ==> r.messages.pass == a.messages.pass
    ensures b.pass.Some? ==> r.messages.pass == Some(Compiled(b.pass.value.source))
    ensures b.fail.None? ==> r.messages.fail == a.messages.fail
    ensures b.fail.Some? ==> r.messages.fail == Some(Compiled(b.fail.value.source))
    ensures !a.messages.incomplete.Keyed? ==> r.messages.incomplete == b.incomplete
    ensures a.messages.incomplete.Keyed? ==> r.messages.incomplete.Keyed?
    ensures a.messages.incomplete.Keyed? && (b.incomplete.NoIncomplete? || (b.incomplete.Single? && b.incomplete.msg.Compiled?))
      ==> r.messages.incomplete == a.messages.incomplete
  {
    var incomplete :=
      if a.messages.incomplete.Keyed?
      then Keyed(Spread(a.messages.incomplete.entries, SpreadSource(b.incomplete)))
      else b.incomplete;
    a.(messages := Messages(
      Override(a.messages.pass, b.pass),
      Override(a.messages.fail, b.fail),
      incomplete))
  }

  /**
   * When the current `incomplete` is keyed and the override is keyed too, the result is
   * the key-wise union: override keys win and keys only in the current map survive.
   */
  lemma IncompleteUnion(a: CheckMeta, b: CheckLocale, k: string)
    requires a.messages.incomplete.Keyed? && b.incomplete.Keyed? && Wf(b.incomplete.entries)
    ensures var r := MergeCheckLocale(a, b).messages.incomplete;
      && r.Keyed?
      && Get(r.entries, k) == (if Has(b.incomplete.entries, k) then Get(b.incomplete.entries, k)
                               else Get(a.messages.incomplete.entries, k))
  {
    SpreadGet(a.messages.incomplete.entries, b.incomplete.entries, k);
  }

  /** Merges a rule's locale entry `b` into its metadata `a`, favouring `b`. */
  function MergeRuleLocale(a: RuleMeta, b: RuleLocale): (r: RuleMeta)
    ensures r.helpUrl == a.helpUrl && r.rest == a.rest
    ensures b.help.None? ==> r.help == a.help
    ensures b.help.Some? ==> r.help == Some(Compiled(b.help.value.source))
    ensures b.description.None? ==> r.description == a.description
    ensures b.description.Some? ==> r.description == Some(Compiled(b.description.value.source))
  {
    a.(help := Override(a.help, b.help), description := Override(a.description, b.description))
  }

  function UnknownIdMessage(kind: string, id: string): string {
    "Locale provided for unknown " + kind + ": \"" + id + "\""
  }

  /** `loc[i]` is the first entry, in key order, whose id `data` lacks. */
  ghost predicate FirstUnknownAt<M, L>(data: Dict<M>, loc: Dict<L>, i: int) {
    0 <= i < |loc| && !Has(data, loc[i].0) && forall j :: 0 <= j < i ==> Has(data, loc[j].0)
  }

  /** The first unknown entry of a tail, behind a known head, is the first unknown entry of the whole. */
  lemma FirstUnknownCons<M, L>(data: Dict<M>, data': Dict<M>, loc: Dict<L>, i: int)
    requires |loc| > 0 && Has(data, loc[0].0) && Keys(data') == Keys(data)
    requires FirstUnknownAt(data', loc[1..], i)
    ensures FirstUnknownAt(data, loc, i + 1)
  {
    HasKeys(data', data, loc[i + 1].0);
    forall j | 0 < j < i + 1 ensures Has(data, loc[j].0) {
      assert loc[j] == loc[1..][j - 1];
      HasKeys(data', data, loc[j].0);
    }
  }

  /** The converse of `FirstUnknownCons`: past a known head, the first unknown id moves one place up. */
  lemma FirstUnknownTail<M, L>(data: Dict<M>, data': Dict<M>, loc: Dict<L>, i: int)
    requires Keys(data') == Keys(data) && FirstUnknownAt(data, loc, i) && i > 0
    ensures FirstUnknownAt(data', loc[1..], i - 1)
  {
    HasKeys(data', data, loc[i].0);
    forall j | 0 <= j < i - 1 ensures Has(data', loc[1..][j].0) {
      assert loc[1..][j] == loc[j + 1];
      HasKeys(data', data, loc[j + 1].0);
    }
  }

  /**
   * Merges every entry of `loc` into `data` in key order, stopping with an error at the
   * first id `data` does not hold. Entries merged before that point stay merged, as the
   * source mutates `data` in place before it throws.
   */
  function ApplyEntries<M, L>(data: Dict<M>, loc: Dict<L>, merge: (M, L) -> M, kind: string)
    : (r: (Dict<M>, Option<string>))
    ensures Keys(r.0) == Keys(data)
    ensures r.1.None? <==> forall i :: 0 <= i < |loc| ==> Has(data, loc[i].0)
    ensures r.1.Some? ==> exists i :: FirstUnknownAt(data, loc, i) && r.1.value == UnknownIdMessage(kind, loc[i].0)
    ensures forall k :: !Has(loc, k) ==> Get(r.0, k) == Get(data, k)
    decreases |loc|
  {
    if |loc| == 0 then (data, None)
    else
      var (id, entry) := loc[0];
      match Get(data, id)
      case None => (data, Some(UnknownIdMessage(kind, id)))
      case Some(current) =>
        var data' := Put(data, id, merge(current, entry));
        var r := ApplyEntries(data', loc[1..], merge, kind);
        assert forall k :: Has(data', k) <==> Has(data, k) by {
          forall k ensures Has(data', k) <==> Has(data, k) {
            HasKeys(data', data, k);
          }
        }
        assert forall k :: !Has(loc, k) ==> Get(r.0, k) == Get(data, k) by {
          forall k | !Has(loc, k) ensures Get(r.0, k) == Get(data, k) {
            HasCons(loc, k);
            PutGet(data, id, merge(current, entry), k);
          }
        }
        assert r.1.Some? ==> exists i :: FirstUnknownAt(data, loc, i) && r.1.value == UnknownIdMessage(kind, loc[i].0) by {
          if r.1.Some? {
            var i :| FirstUnknownAt(data', loc[1..], i) && r.1.value == UnknownIdMessage(kind, loc[1..][i].0);
            FirstUnknownCons(data, data', loc, i);
          }
        }
        assert (forall i :: 0 <= i < |loc| ==> Has(data, loc[i].0)) <==> (forall i :: 0 <= i < |loc[1..]| ==> Has(data', loc[1..][i].0)) by {
          assert forall i :: 0 <= i < |loc[1..]| ==> loc[1..][i] == loc[i + 1];
        }
        r
  }

  /** The next entry to merge, given that its id is known. */
  function MergeHead<M, L>(data: Dict<M>, loc: Dict<L>, merge: (M, L) -> M): Dict<M>
    requires |loc| > 0 && Has(data, loc[0].0)
  {
    Put(data, loc[0].0, merge(Get(data, loc[0].0).value, loc[0].1))
  }

  /** One step of `ApplyEntries` past a known head. */
  lemma ApplyEntriesStep<M, L>(data: Dict<M>, loc: Dict<L>, merge: (M, L) -> M, kind: string)
    requires |loc| > 0 && Has(data, loc[0].0)
    ensures ApplyEntries(data, loc, merge, kind) == ApplyEntries(MergeHead(data, loc, merge), loc[1..], merge, kind)
  {
  }

  /**
   * After a successful application, every entry of a key-distinct `loc` holds the merge
   * of the previous value with the locale entry.
   */
  lemma {:induction false} ApplyEntriesGet<M, L>(data: Dict<M>, loc: Dict<L>, merge: (M, L) -> M, kind: string, i: nat)
    requires Wf(loc) && i < |loc|
    requires ApplyEntries(data, loc, merge, kind).1.None?
    ensures Has(data, loc[i].0)
    ensures Get(ApplyEntries(data, loc, merge, kind).0, loc[i].0) == Some(merge(Get(data, loc[i].0).value, loc[i].1))
    decreases |loc|
  {
    var id := loc[0].0;
    var current := Get(data, id);
    assert Has(data, id) by {
      assert 0 < |loc|;
    }
    var data' := MergeHead(data, loc, merge);
    var rest := ApplyEntries(data', loc[1..], merge, kind);
    assert ApplyEntries(data, loc, merge, kind) == rest by {
      ApplyEntriesStep(data, loc, merge, kind);
    }
    assert rest.1.None?;
    if i == 0 {
      assert Get(rest.0, id) == Get(data', id) by {
        assert !Has(loc[1..], id);
      }
      PutGet(data, id, merge(current.value, loc[0].1), id);
    } else {
      assert Wf(loc[1..]);
      assert loc[1..][i - 1] == loc[i];
      ApplyEntriesGet(data', loc[1..], merge, kind, i - 1);
      assert Has(data, loc[i].0) by {
        HasKeys(data', data, loc[i].0);
      }
      PutGet(data, id, merge(current.value, loc[0].1), loc[i].0);
    }
  }

  /** The same, by key: every key a key-distinct `loc` names holds its merged value. */
  lemma ApplyEntriesMerged<M, L>(data: Dict<M>, loc: Dict<L>, merge: (M, L) -> M, kind: string)
    ensures Wf(loc) && ApplyEntries(data, loc, merge, kind).1.None? ==> forall k :: Has(loc, k) ==>
      Has(data, k) && Get(ApplyEntries(data, loc, merge, kind).0, k) == Some(merge(Get(data, k).value, Get(loc, k).value))
  {
    if Wf(loc) && ApplyEntries(data, loc, merge, kind).1.None? {
      forall k | Has(loc, k)
        ensures Has(data, k) && Get(ApplyEntries(data, loc, merge, kind).0, k) == Some(merge(Get(data, k).value, Get(loc, k).value))
      {
        var i :| 0 <= i < |loc| && loc[i].0 == k;
        ApplyEntriesGet(data, loc, merge, kind, i);
        GetWf(loc, k, i);
      }
    }
  }

  /** The same step, taken on the first `i` entries of `loc`. */
  lemma ApplyEntriesStepPrefix<M, L>(data: Dict<M>, loc: Dict<L>, merge: (M, L) -> M, kind: string, i: int)
    requires 0 < i <= |loc| && Has(data, loc[0].0)
    ensures ApplyEntries(data, loc[..i], merge, kind) == ApplyEntries(MergeHead(data, loc, merge), loc[1..][..i - 1], merge, kind)
  {
    var pre := loc[..i];
    assert pre[0] == loc[0];
    assert pre[1..] == loc[1..][..i - 1];
    ApplyEntriesStep(data, pre, merge, kind);
  }

  /**
   * A throw happens at the first unknown id, and the data left behind is what the
   * entries before it, applied on their own, produce.
   */
  lemma {:induction false} ApplyEntriesThrow<M, L>(data: Dict<M>, loc: Dict<L>, merge: (M, L) -> M, kind: string, i: int)
    requires FirstUnknownAt(data, loc, i)
    ensures ApplyEntries(data, loc[..i], merge, kind).1.None?
    ensures ApplyEntries(data, loc, merge, kind)
         == (ApplyEntries(data, loc[..i], merge, kind).0, Some(UnknownIdMessage(kind, loc[i].0)))
    decreases i
  {
    if i == 0 {
      assert loc[..i] == [];
    } else {
      var data' := MergeHead(data, loc, merge);
      ApplyEntriesStep(data, loc, merge, kind);
      ApplyEntriesStepPrefix(data, loc, merge, kind, i);
      FirstUnknownTail(data, data', loc, i);
      ApplyEntriesThrow(data', loc[1..], merge, kind, i - 1);
    }
  }

  /** When the first `i` ids of a key-distinct `loc` are all known, a run over those entries merges each of them. */
  lemma ApplyEntriesPrefixMerged<M, L>(data: Dict<M>, loc: Dict<L>, merge: (M, L) -> M, kind: string, i: int)
    requires Wf(loc) && 0 <= i <= |loc|
    requires forall j :: 0 <= j < i ==> Has(data, loc[j].0)
    ensures ApplyEntries(data, loc[..i], merge, kind).1.None?
    ensures forall j :: 0 <= j < i ==>
      Get(ApplyEntries(data, loc[..i], merge, kind).0, loc[j].0) == Some(merge(Get(data, loc[j].0).value, loc[j].1))
  {
    PrefixKnown(data, loc, merge, kind, i);
    forall j | 0 <= j < i
      ensures Get(ApplyEntries(data, loc[..i], merge, kind).0, loc[j].0) == Some(merge(Get(data, loc[j].0).value, loc[j].1))
    {
      ApplyEntriesGetPrefix(data, loc, merge, kind, i, j);
    }
  }

  lemma PrefixKnown<M, L>(data: Dict<M>, loc: Dict<L>, merge: (M, L) -> M, kind: string, i: int)
    requires 0 <= i <= |loc|
    requires forall j :: 0 <= j < i ==> Has(data, loc[j].0)
    ensures ApplyEntries(data, loc[..i], merge, kind).1.None?
  {
    var prefix := loc[..i];
    forall x | 0 <= x < |prefix| ensures Has(data, prefix[x].0) {
      assert prefix[x] == loc[x];
    }
  }

  lemma ApplyEntriesGetPrefix<M, L>(data: Dict<M>, loc: Dict<L>, merge: (M, L) -> M, kind: string, i: int, j: int)
    requires Wf(loc) && 0 <= j < i <= |loc|
    requires forall j :: 0 <= j < i ==> Has(data, loc[j].0)
    ensures Get(ApplyEntries(data, loc[..i], merge, kind).0, loc[j].0) == Some(merge(Get(data, loc[j].0).value, loc[j].1))
  {
    var prefix := loc[..i];
    PrefixKnown(data, loc, merge, kind, i);
    assert Wf(prefix);
    assert prefix[j] == loc[j];
    ApplyEntriesGet(data, prefix, merge, kind, j);
  }

  /** Whatever a run over the first `i` entries of `loc` returns, keys none of them names are unchanged. */
  lemma ApplyEntriesPrefixKept<M, L>(data: Dict<M>, loc: Dict<L>, merge: (M, L) -> M, kind: string, i: int)
    requires 0 <= i <= |loc|
    ensures forall k :: (forall j :: 0 <= j < i ==> loc[j].0 != k) ==>
      Get(ApplyEntries(data, loc[..i], merge, kind).0, k) == Get(data, k)
  {
    var prefix := loc[..i];
    forall k | forall j :: 0 <= j < i ==> loc[j].0 != k
      ensures Get(ApplyEntries(data, prefix, merge, kind).0, k) == Get(data, k)
    {
      assert !Has(prefix, k);
    }
  }

  /**
   * The state at a throw: the error names the first unknown id, every entry before it
   * holds its merge, and every key none of them names is unchanged.
   */
  lemma ApplyEntriesThrowState<M, L>(data: Dict<M>, loc: Dict<L>, merge: (M, L) -> M, kind: string, i: int)
    requires Wf(loc) && FirstUnknownAt(data, loc, i)
    ensures var r := ApplyEntries(data, loc, merge, kind);
      && r.1 == Some(UnknownIdMessage(kind, loc[i].0))
      && (forall j :: 0 <= j < i ==> Get(r.0, loc[j].0) == Some(merge(Get(data, loc[j].0).value, loc[j].1)))
      && (forall k :: (forall j :: 0 <= j < i ==> loc[j].0 != k) ==> Get(r.0, k) == Get(data, k))
  {
    ApplyEntriesThrow(data, loc, merge, kind, i);
    ApplyEntriesPrefixMerged(data, loc, merge, kind, i);
    ApplyEntriesPrefixKept(data, loc, merge, kind, i);
  }
}
