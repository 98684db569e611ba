/**
 * Branding and help-URL derivation (`setBranding`, `getHelpUrl`, `_constructHelpUrls`
 * in lib/core/base/audit.js).
 */
module HelpUrl {
  import opened JsValues
  import opened Dict
  import opened Locale
  import opened Audit

  predicate IsDigit(c: char) {
    '0' <= c <= '9'
  }

  ghost predicate AllDigits(s: string) {
    forall i :: 0 <= i < |s| ==> IsDigit(s[i])
  }

  /** The length of the run of digits `s` starts with. */
  function DigitRun(s: string): (n: nat)
    ensures n <= |s|
    ensures AllDigits(s[..n])
    ensures n < |s| ==> !IsDigit(s[n])
  {
    if |s| == 0 || !IsDigit(s[0]) then 0
    else
      var n := 1 + DigitRun(s[1..]);
      assert forall i :: 1 <= i < n ==> s[..n][i] == s[1..][..n - 1][i - 1];
      n
  }

  /** `s` has the shape `[1-9][0-9]*\.[0-9]+` and nothing more. */
  ghost predicate MajorMinor(s: string) {
    exists m :: 0 < m < |s| - 1 && '1' <= s[0] <= '9' && AllDigits(s[..m]) && s[m] == '.' && AllDigits(s[m + 1..])
  }

  /**
   * The part of the version `^[1-9][0-9]*\.[0-9]+` matches, or `x.y` when it does not
   * match. Both digit runs are greedy, so the match is the longest such prefix.
   */
  function VersionPrefix(v: string): (r: string)
    ensures r == "x.y" || (|r| <= |v| && r == v[..|r|] && MajorMinor(r))
  {
    if |v| > 0 && '1' <= v[0] <= '9' then
      var m := 1 + DigitRun(v[1..]);
      assert AllDigits(v[..m]) by {
        assert forall i :: 1 <= i < m ==> v[..m][i] == v[1..][..m - 1][i - 1];
      }
      if m < |v| && v[m] == '.' then
        var n := DigitRun(v[m + 1..]);
        if n > 0 then
          var r := v[..m + 1 + n];
          assert r[..m] == v[..m];
          assert r[m + 1..] == v[m + 1..][..n];
          r
        else "x.y"
      else "x.y"
    else "x.y"
  }

  /** A release version `M.N` followed by anything that does not continue the minor digits yields `M.N`. */
  lemma VersionOfRelease(major: string, minor: string, rest: string)
    requires |major| > 0 && '1' <= major[0] <= '9' && AllDigits(major)
    requires |minor| > 0 && AllDigits(minor)
    requires |rest| > 0 ==> !IsDigit(rest[0])
    ensures VersionPrefix(major + "." + minor + rest) == major + "." + minor
  {
    var v := major + "." + minor + rest;
    ReleaseRuns(major, minor, rest);
    VersionPrefixAt(v, |major|, |minor|);
  }

  /** The digit runs `VersionPrefix` measures in a release version `major.minor` + `rest`. */
  lemma ReleaseRuns(major: string, minor: string, rest: string)
    requires |major| > 0 && '1' <= major[0] <= '9' && AllDigits(major)
    requires |minor| > 0 && AllDigits(minor)
    requires |rest| > 0 ==> !IsDigit(rest[0])
    ensures var v := major + "." + minor + rest;
      && |v| > 0 && '1' <= v[0] <= '9'
      && 1 + DigitRun(v[1..]) == |major| && |major| < |v| && v[|major|] == '.'
      && DigitRun(v[|major| + 1..]) == |minor|
      && v[..|major| + 1 + |minor|] == major + "." + minor
  {
    var tail := "." + minor + rest;
    var v := major + tail;
    var m := |major|;
    assert v == major + "." + minor + rest;
    assert 1 + DigitRun(v[1..]) == m by {
      assert v[1..] == major[1..] + tail;
      assert AllDigits(major[1..]) by {
        assert forall i :: 0 <= i < |major[1..]| ==> major[1..][i] == major[i + 1];
      }
      DigitRunPrefix(major[1..], tail);
    }
    assert DigitRun(v[m + 1..]) == |minor| by {
      assert v[m + 1..] == minor + rest;
      DigitRunPrefix(minor, rest);
    }
    assert v[m] == '.' && v[0] == major[0];
    assert v[..m + 1 + |minor|] == major + "." + minor;
  }

  lemma VersionPrefixAt(v: string, m: nat, n: nat)
    requires |v| > 0 && '1' <= v[0] <= '9'
    requires m == 1 + DigitRun(v[1..]) && m < |v| && v[m] == '.'
    requires n == DigitRun(v[m + 1..]) && n > 0
    ensures VersionPrefix(v) == v[..m + 1 + n]
  {
  }

  lemma {:induction false} DigitRunPrefix(ds: string, rest: string)
    requires AllDigits(ds)
    requires |rest| > 0 ==> !IsDigit(rest[0])
    ensures DigitRun(ds + rest) == |ds|
    decreases |ds|
  {
    if |ds| > 0 {
      assert (ds + rest)[1..] == ds[1..] + rest;
      DigitRunPrefix(ds[1..], rest);
    }
  }

  /** `getHelpUrl`: base, brand, version, rule id and application, in that order. */
  function HelpUrlFor(base: string, brand: string, application: string, ruleId: string, version: string): string {
    base + brand + "/" + version + "/" + ruleId + "?application=" + application
  }

  /**
   * A help URL starts with the base, the brand and a slash, ends with the application
   * query, and adds fifteen fixed characters to its five parts.
   */
  lemma HelpUrlShape(base: string, brand: string, application: string, ruleId: string, version: string)
    ensures var url := HelpUrlFor(base, brand, application, ruleId, version);
      && |url| == |base| + |brand| + |version| + |ruleId| + |application| + 15
      && url[..|base| + |brand| + 1] == base + brand + "/"
      && url[|url| - |application| - 13..] == "?application=" + application
  {
  }

  /**
   * Different rules get different URLs under one branding and version: the rule id is
   * recovered from the URL as the part between the version and `?application=`.
   */
  lemma HelpUrlInjective(base: string, brand: string, application: string, version: string, id1: string, id2: string)
    requires HelpUrlFor(base, brand, application, id1, version) == HelpUrlFor(base, brand, application, id2, version)
    ensures id1 == id2
  {
    var u := HelpUrlFor(base, brand, application, id1, version);
    var start := |base| + |brand| + |version| + 2;
    assert u[start..|u| - |application| - 13] == id1;
    assert HelpUrlFor(base, brand, application, id2, version)[start..|u| - |application| - 13] == id2;
  }

  datatype Branding = Branding(brand: string, application: string)

  function Derived(a: Audit, b: Branding, ruleId: string): string {
    HelpUrlFor(a.helpUrlBase, b.brand, b.application, ruleId, VersionPrefix(a.version))
  }

  function Current(a: Audit): Branding {
    Branding(a.brand, a.application)
  }

  function EmptyRuleMeta(): RuleMeta {
    RuleMeta(None, None, None, map[])
  }

  /**
   * Whether a rule's URL is (re)derived: when it is not a string, or when it is exactly
   * the URL the previous branding derived.
   */
  predicate Rewrite(url: Option<string>, prev: Option<Branding>, a: Audit, ruleId: string) {
    url.None? || (prev.Some? && url.value == Derived(a, prev.value, ruleId))
  }

  /** One rule's metadata after the derivation: its URL re-derived when `Rewrite` says so. */
  function Rederive(a: Audit, prev: Option<Branding>, m: RuleMeta, id: string): RuleMeta {
    if Rewrite(m.helpUrl, prev, a, id) then m.(helpUrl := Some(Derived(a, Current(a), id))) else m
  }

  /** The help URLs of the rules `rules`, one after the other, given the metadata so far. */
  function HelpUrls(a: Audit, prev: Option<Branding>, meta: Dict<RuleMeta>, rules: seq<Rule>): (r: Dict<RuleMeta>)
    ensures forall k :: (forall i :: 0 <= i < |rules| ==> rules[i].id != k) ==> Get(r, k) == Get(meta, k)
    ensures forall i :: 0 <= i < |rules| ==> Get(r, rules[i].id).Some? && Get(r, rules[i].id).value.helpUrl.Some?
    decreases |rules|
  {
    if |rules| == 0 then meta
    else
      var id := rules[0].id;
      var m' := Rederive(a, prev, Get(meta, id).OrElse(EmptyRuleMeta()), id);
      var meta' := Put(meta, id, m');
      var r := HelpUrls(a, prev, meta', rules[1..]);
      assert forall k :: k != id ==> Get(meta', k) == Get(meta, k) by {
        forall k | k != id ensures Get(meta', k) == Get(meta, k) { PutGet(meta, id, m', k); }
      }
      assert Get(r, id).Some? && Get(r, id).value.helpUrl.Some? by {
        PutGet(meta, id, m', id);
        if exists i :: 0 <= i < |rules[1..]| && rules[1..][i].id == id {
        } else {
          assert Get(r, id) == Get(meta', id);
        }
      }
      assert forall i :: 1 <= i < |rules| ==> rules[i] == rules[1..][i - 1];
      r
  }

  /** `_constructHelpUrls`: derive the help URL of every registered rule that needs one. */
  function ConstructHelpUrls(a: Audit, prev: Option<Branding>): (r: Audit)
    ensures r == a.(data := r.data) && r.data.checks == a.data.checks
    ensures forall i :: 0 <= i < |a.rules| ==> Get(r.data.rules, a.rules[i].id).Some? && Get(r.data.rules, a.rules[i].id).value.helpUrl.Some?
    ensures forall k :: (forall i :: 0 <= i < |a.rules| ==> a.rules[i].id != k) ==> Get(r.data.rules, k) == Get(a.data.rules, k)
  {
    a.(data := a.data.(rules := HelpUrls(a, prev, a.data.rules, a.rules)))
  }

  /**
   * With registered rule ids distinct, each rule's metadata after the derivation is its
   * previous metadata (or an empty record) whose URL is re-derived exactly when
   * `Rewrite` says so.
   */
  lemma {:induction false} HelpUrlOf(a: Audit, prev: Option<Branding>, meta: Dict<RuleMeta>, rules: seq<Rule>, i: nat)
    requires UniqueIds(rules) && i < |rules|
    ensures var id := rules[i].id;
      var m := Get(meta, id).OrElse(EmptyRuleMeta());
      Get(HelpUrls(a, prev, meta, rules), id)
        == Some(if Rewrite(m.helpUrl, prev, a, id) then m.(helpUrl := Some(Derived(a, Current(a), id))) else m)
    decreases |rules|
  {
    var id := rules[0].id;
    var m' := Rederive(a, prev, Get(meta, id).OrElse(EmptyRuleMeta()), id);
    var meta' := Put(meta, id, m');
    assert HelpUrls(a, prev, meta, rules) == HelpUrls(a, prev, meta', rules[1..]);
    if i == 0 {
      PutGet(meta, id, m', id);
      assert forall j :: 0 <= j < |rules[1..]| ==> rules[1..][j].id != id by {
        assert forall j :: 0 <= j < |rules[1..]| ==> rules[1..][j] == rules[j + 1];
      }
    } else {
      assert rules[1..][i - 1] == rules[i];
      assert UniqueIds(rules[1..]) by {
        assert forall j :: 0 <= j < |rules[1..]| ==> rules[1..][j] == rules[j + 1];
      }
      HelpUrlOf(a, prev, meta', rules[1..], i - 1);
      PutGet(meta, id, m', rules[i].id);
    }
  }

  /** `setBranding`: only non-empty strings change brand or application; then URLs are re-derived. */
  function SetBranding(a: Audit, brand: Option<string>, application: Option<string>): (r: Audit)
    ensures r.brand == (if brand.Some? && brand.value != "" then brand.value else a.brand)
    ensures r.application == (if application.Some? && application.value != "" then application.value else a.application)
    ensures r.rules == a.rules && r.checks == a.checks && r.data.checks == a.data.checks
    ensures r.defaultLocale == a.defaultLocale
  {
    var previous := Current(a);
    var a1 := a.(
      brand := if brand.Some? && brand.value != "" then brand.value else a.brand,
      application := if application.Some? && application.value != "" then application.value else a.application);
    ConstructHelpUrls(a1, Some(previous))
  }

  /**
   * After a branding change, a rule whose URL had been derived under the previous
   * branding carries the URL derived under the new one; a rule whose URL was a string
   * other than that derivation keeps it.
   */
  lemma BrandingRederives(a: Audit, brand: Option<string>, application: Option<string>, i: nat)
    requires UniqueIds(a.rules) && i < |a.rules|
    ensures var id := a.rules[i].id;
      var r := SetBranding(a, brand, application);
      var before := Get(a.data.rules, id);
      && Get(r.data.rules, id).Some?
      && ((before.Some? && before.value.helpUrl.Some? && before.value.helpUrl.value != Derived(a, Current(a), id))
          ==> Get(r.data.rules, id) == before)
      && ((before.None? || before.value.helpUrl.None? || before.value.helpUrl.value == Derived(a, Current(a), id))
          ==> Get(r.data.rules, id).value.helpUrl == Some(Derived(r, Current(r), id)))
  {
    var a1 := a.(
      brand := if brand.Some? && brand.value != "" then brand.value else a.brand,
      application := if application.Some? && application.value != "" then application.value else a.application);
    HelpUrlOf(a1, Some(Current(a)), a.data.rules, a.rules, i);
  }

  /** Every registered rule's URL is the one the audit's current branding derives. */
  ghost predicate AllDerived(a: Audit) {
    forall i :: 0 <= i < |a.rules| ==>
      Get(a.data.rules, a.rules[i].id).Some? && Get(a.data.rules, a.rules[i].id).value.helpUrl == Some(Derived(a, Current(a), a.rules[i].id))
  }

  /** Re-branding keeps every derived URL derived: the new branding's URL replaces the old one. */
  lemma BrandingKeepsDerived(a: Audit, brand: Option<string>, application: Option<string>)
    requires UniqueIds(a.rules) && AllDerived(a)
    ensures AllDerived(SetBranding(a, brand, application))
  {
    forall i | 0 <= i < |a.rules|
      ensures var r := SetBranding(a, brand, application);
        Get(r.data.rules, a.rules[i].id).value.helpUrl == Some(Derived(r, Current(r), a.rules[i].id))
    {
      BrandingRederives(a, brand, application, i);
    }
  }
}
