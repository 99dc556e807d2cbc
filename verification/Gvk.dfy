/**
 * Group/version/kind inference for a reversed-DNS definition name such as
 * `io.k8s.api.core.v1.Pod` (`guessGroupVersionKind` in lib/util.js).
 *
 * Two structural checks on the dot-separated segments come first; otherwise
 * an ordered rule table is searched and the first rule yielding a complete
 * triple wins. The table, loaded from `config/gvk.yaml` by the program, is a
 * parameter here; each rule's anchored regular expression is an opaque
 * matcher that yields the named captures `group`, `version` and `kind`.
 */
module Gvk {
  import opened JsValues
  import opened JsStrings

  /** The named groups of a successful match; a group that did not take part is `undefined`. */
  datatype Captures = Captures(group: Value, version: Value, kind: Value)

  /**
   * One entry of the rule table: the substring pre-filter (`rule`), the
   * anchored pattern `^match$` as a matcher on the whole name, and the
   * optional `groupOverride` template.
   */
  datatype Rule = Rule(filter: string, matcher: string -> Option<Captures>, groupOverride: Value)

  /**
   * What the classifier returns: a record with the three fields, or the empty
   * object `{}` when no rule yields a complete triple.
   */
  datatype GuessResult = GroupVersionKind(group: string, version: string, kind: string) | NoFields

  /** The all-empty triple returned, on purpose, for internal utility types. */
  const Ignored := GroupVersionKind("", "", "")

  /** The token of a `groupOverride` template that stands for the captured group. */
  const GroupToken := "<group>"

  /** `parts[parts.length - k]`, which is `undefined` when the array is too short. */
  function SegmentFromEnd(parts: seq<string>, k: nat): (r: Value)
    requires k >= 1
  {
    if |parts| >= k then Str(parts[|parts| - k]) else Undefined
  }

  predicate Complete(group: Value, version: Value, kind: Value)
  {
    Truthy(group) && Truthy(version) && Truthy(kind)
  }

  /** The group a matched rule reports: the captured group, or the override template with its first `<group>` replaced. */
  function RuleGroup(rule: Rule, captured: Value): Value
  {
    if Truthy(rule.groupOverride) then Str(Replace(rule.groupOverride.s, GroupToken, ToText(captured)))
    else captured
  }

  /**
   * What one rule contributes on its own: the complete triple it yields, or
   * `None` when it is skipped (filter absent, pattern not matching) or leaves
   * one of the three fields empty.
   */
  function ApplyRule(rule: Rule, name: string): (r: Option<GuessResult>)
    ensures r.Some? <==>
      Includes(name, rule.filter) && rule.matcher(name).Some? &&
      Complete(RuleGroup(rule, rule.matcher(name).value.group), rule.matcher(name).value.version, rule.matcher(name).value.kind)
    ensures r.Some? ==> r.value.GroupVersionKind? && r.value.group != "" && r.value.version != "" && r.value.kind != ""
    ensures r.Some? ==>
      Str(r.value.group) == RuleGroup(rule, rule.matcher(name).value.group) &&
      Str(r.value.version) == rule.matcher(name).value.version &&
      Str(r.value.kind) == rule.matcher(name).value.kind
  {
    if !Includes(name, rule.filter) then None
    else match rule.matcher(name)
      case None => None
      case Some(c) =>
        var group := RuleGroup(rule, c.group);
        if Complete(group, c.version, c.kind) then Some(GroupVersionKind(group.s, c.version.s, c.kind.s))
        else None
  }

  /** The first-match search over the rule table, in table order. */
  function SearchRules(name: string, rules: seq<Rule>): GuessResult
    decreases |rules|
  {
    if |rules| == 0 then NoFields
    else match ApplyRule(rules[0], name)
      case Some(found) => found
      case None => SearchRules(name, rules[1..])
  }

  /** The whole classification, as a function of the name and the rule table. */
  function Classify(name: string, rules: seq<Rule>): GuessResult
  {
    var parts := Split(name, '.');
    var third := SegmentFromEnd(parts, 3);
    if third == Str("api") && parts[|parts| - 2] != "" && parts[|parts| - 1] != "" then
      GroupVersionKind("core", parts[|parts| - 2], parts[|parts| - 1])
    else if third == Str("util") || third == Str("pkg") then Ignored
    else SearchRules(name, rules)
  }

  /**
   * `guessGroupVersionKind`: the structural checks, then the rule search
   * consuming a copy of the table from the front, stopping at the first rule
   * that yields a complete triple. The table itself is a value and is left as
   * it was.
   */
  method GuessGroupVersionKind(name: string, rules: seq<Rule>) returns (r: GuessResult)
    ensures r == Classify(name, rules)
  {
    var parts := Split(name, '.');
    var len := |parts|;
    var pending := rules;
    var group, version, kind := Str(""), Str(""), Str("");

    if SegmentFromEnd(parts, 3) == Str("api") {
      group, version, kind := Str("core"), Str(parts[len - 2]), Str(parts[len - 1]);
    } else if SegmentFromEnd(parts, 3) == Str("util") || SegmentFromEnd(parts, 3) == Str("pkg") {
      return GroupVersionKind(group.s, version.s, kind.s);
    }

    if Complete(group, version, kind) {
      return GroupVersionKind(group.s, version.s, kind.s);
    }

    assert Classify(name, rules) == SearchRules(name, rules);
    while |pending| > 0
      invariant SearchRules(name, pending) == SearchRules(name, rules)
      invariant !Complete(group, version, kind)
      decreases |pending|
    {
      var rule := pending[0];
      pending := pending[1..];

      if !Includes(name, rule.filter) {
        continue;
      }

      var matches := rule.matcher(name);
      if matches.None? {
        continue;
      }

      group, version, kind := matches.value.group, matches.value.version, matches.value.kind;

      if Truthy(rule.groupOverride) {
        group := Str(Replace(rule.groupOverride.s, GroupToken, ToText(group)));
      }

      if Complete(group, version, kind) {
        assert ApplyRule(rule, name) == Some(GroupVersionKind(group.s, version.s, kind.s));
        break;
      }
    }

    if !Complete(group, version, kind) {
      return NoFields;
    }
    return GroupVersionKind(group.s, version.s, kind.s);
  }

  // ---------------------------------------------------------------------------
  // Properties of the classification

  /**
   * A name whose third-from-last segment is `api` (and whose last two are
   * non-empty) is a core type: group `core`, version and kind from the last
   * two segments, whatever the rule table holds.
   */
  lemma ClassifyApiSegments(segments: seq<string>, rules: seq<Rule>)
    requires |segments| >= 3
    requires forall i :: 0 <= i < |segments| ==> '.' !in segments[i]
    requires segments[|segments| - 3] == "api"
    requires segments[|segments| - 2] != "" && segments[|segments| - 1] != ""
    ensures Classify(Join(segments, '.'), rules) ==
            GroupVersionKind("core", segments[|segments| - 2], segments[|segments| - 1])
  {
    SplitJoin(segments, '.');
    ClassifyApiParts(Join(segments, '.'), segments, rules);
  }

  /** The `api` case of Classify, stated over the pieces of the split name. */
  lemma ClassifyApiParts(name: string, parts: seq<string>, rules: seq<Rule>)
    requires Split(name, '.') == parts
    requires |parts| >= 3 && parts[|parts| - 3] == "api"
    requires parts[|parts| - 2] != "" && parts[|parts| - 1] != ""
    ensures Classify(name, rules) == GroupVersionKind("core", parts[|parts| - 2], parts[|parts| - 1])
  {
    assert SegmentFromEnd(parts, 3) == Str("api");
  }

  /**
   * A name whose third-from-last segment is `util` or `pkg` is deliberately
   * ignored: the all-empty triple, whatever the rule table holds.
   */
  lemma ClassifyIgnoredSegments(segments: seq<string>, rules: seq<Rule>)
    requires |segments| >= 3
    requires forall i :: 0 <= i < |segments| ==> '.' !in segments[i]
    requires segments[|segments| - 3] == "util" || segments[|segments| - 3] == "pkg"
    ensures Classify(Join(segments, '.'), rules) == Ignored
  {
    SplitJoin(segments, '.');
    ClassifyIgnoredParts(Join(segments, '.'), segments, rules);
  }

  /** The `util`/`pkg` case of Classify, stated over the pieces of the split name. */
  lemma ClassifyIgnoredParts(name: string, parts: seq<string>, rules: seq<Rule>)
    requires Split(name, '.') == parts
    requires |parts| >= 3 && (parts[|parts| - 3] == "util" || parts[|parts| - 3] == "pkg")
    ensures Classify(name, rules) == Ignored
  {
    assert SegmentFromEnd(parts, 3) != Str("api");
  }

  /**
   * Otherwise the rule table decides: a name with fewer than three segments,
   * whose third-from-last segment is neither `util` nor `pkg`, and that is not
   * a complete `api` name (an `api` name with an empty version or kind falls
   * through as well), is classified by the rule search alone.
   */
  lemma ClassifyByRules(segments: seq<string>, rules: seq<Rule>)
    requires |segments| >= 1
    requires forall i :: 0 <= i < |segments| ==> '.' !in segments[i]
    requires |segments| < 3 ||
      (segments[|segments| - 3] != "util" && segments[|segments| - 3] != "pkg" &&
       (segments[|segments| - 3] == "api" ==> segments[|segments| - 2] == "" || segments[|segments| - 1] == ""))
    ensures Classify(Join(segments, '.'), rules) == SearchRules(Join(segments, '.'), rules)
  {
    SplitJoin(segments, '.');
    ClassifyByRulesParts(Join(segments, '.'), segments, rules);
  }

  /** The fall-through case of Classify, stated over the pieces of the split name. */
  lemma ClassifyByRulesParts(name: string, parts: seq<string>, rules: seq<Rule>)
    requires Split(name, '.') == parts && |parts| >= 1
    requires |parts| < 3 ||
      (parts[|parts| - 3] != "util" && parts[|parts| - 3] != "pkg" &&
       (parts[|parts| - 3] == "api" ==> parts[|parts| - 2] == "" || parts[|parts| - 1] == ""))
    ensures Classify(name, rules) == SearchRules(name, rules)
  {
  }

  /** Every classification is a complete triple, the deliberate all-empty triple, or the empty record. */
  lemma ClassifyShape(name: string, rules: seq<Rule>)
    ensures var r := Classify(name, rules);
      r == NoFields || r == Ignored ||
      (r.GroupVersionKind? && r.group != "" && r.version != "" && r.kind != "")
  {
    SearchRulesShape(name, rules);
  }

  lemma {:induction false} SearchRulesShape(name: string, rules: seq<Rule>)
    ensures var r := SearchRules(name, rules);
      r == NoFields || (r.GroupVersionKind? && r.group != "" && r.version != "" && r.kind != "")
    decreases |rules|
  {
    if |rules| > 0 && ApplyRule(rules[0], name).None? {
      SearchRulesShape(name, rules[1..]);
    }
  }

  /**
   * First match wins: when rule `i` yields a complete triple and no earlier
   * rule does, the search returns rule `i`'s triple and later rules play no part.
   */
  lemma {:induction false} SearchRulesFirstMatch(name: string, rules: seq<Rule>, i: nat)
    requires i < |rules|
    requires ApplyRule(rules[i], name).Some?
    requires forall j :: 0 <= j < i ==> ApplyRule(rules[j], name).None?
    ensures SearchRules(name, rules) == ApplyRule(rules[i], name).value
    decreases i
  {
    if i > 0 {
      SearchRulesFirstMatch(name, rules[1..], i - 1);
    }
  }

  /** The search fails, with the empty record, exactly when no rule yields a complete triple. */
  lemma {:induction false} SearchRulesFails(name: string, rules: seq<Rule>)
    ensures SearchRules(name, rules) == NoFields <==>
            forall j :: 0 <= j < |rules| ==> ApplyRule(rules[j], name).None?
    decreases |rules|
  {
    if |rules| > 0 {
      SearchRulesFails(name, rules[1..]);
      SearchRulesShape(name, rules);
      if ApplyRule(rules[0], name).None? {
        forall j | 0 <= j < |rules| && ApplyRule(rules[j], name).Some?
          ensures exists k :: 0 <= k < |rules| - 1 && ApplyRule(rules[1..][k], name).Some?
        {
          assert rules[1..][j - 1] == rules[j];
        }
      }
    }
  }

  /** A successful search result is yielded by some rule of the table, every earlier rule having yielded nothing. */
  lemma {:induction false} SearchRulesWitness(name: string, rules: seq<Rule>) returns (i: nat)
    requires SearchRules(name, rules) != NoFields
    ensures i < |rules| && ApplyRule(rules[i], name) == Some(SearchRules(name, rules))
    ensures forall j :: 0 <= j < i ==> ApplyRule(rules[j], name).None?
    decreases |rules|
  {
    if ApplyRule(rules[0], name).Some? {
      i := 0;
    } else {
      var k := SearchRulesWitness(name, rules[1..]);
      i := k + 1;
      assert rules[1..][k] == rules[i];
      forall j | 0 < j < i ensures ApplyRule(rules[j], name).None? {
        assert rules[1..][j - 1] == rules[j];
      }
    }
  }

  /** A rule whose filter does not occur in the name can be dropped from the table without changing the result. */
  lemma {:induction false} SearchRulesSkipsFiltered(name: string, rules: seq<Rule>, i: nat)
    requires i < |rules|
    requires !Includes(name, rules[i].filter)
    ensures SearchRules(name, rules) == SearchRules(name, rules[..i] + rules[i + 1..])
    decreases i
  {
    if i > 0 {
      SearchRulesSkipsFiltered(name, rules[1..], i - 1);
      assert (rules[..i] + rules[i + 1..])[1..] == rules[1..][..i - 1] + rules[1..][i..];
    } else {
      assert rules[..i] + rules[i + 1..] == rules[1..];
    }
  }

  /**
   * With a `groupOverride` template, the reported group is the template with
   * its first `<group>` replaced by the captured group, spelled `undefined`
   * when the group did not take part in the match (provided the capture holds
   * no `$`, which `replace` would interpret).
   */
  lemma GroupOverrideSubstitutes(rule: Rule, name: string, at: nat)
    requires ApplyRule(rule, name).Some?
    requires Truthy(rule.groupOverride)
    requires IndexOf(rule.groupOverride.s, GroupToken) == Some(at)
    requires '$' !in ToText(rule.matcher(name).value.group)
    ensures var template := rule.groupOverride.s;
      ApplyRule(rule, name).value.group ==
      template[..at] + ToText(rule.matcher(name).value.group) + template[at + |GroupToken|..]
  {
  }

  /** A template without `<group>` is reported verbatim, whatever was captured. */
  lemma GroupOverrideWithoutToken(rule: Rule, name: string)
    requires ApplyRule(rule, name).Some?
    requires Truthy(rule.groupOverride)
    requires IndexOf(rule.groupOverride.s, GroupToken).None?
    ensures ApplyRule(rule, name).value.group == rule.groupOverride.s
  {
  }
}
