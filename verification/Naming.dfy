/**
 * The small naming helpers of lib/util.js: the names of the definitions that
 * are documented inline with a resource, `titleize` and `createKey`.
 */
module Naming {
  import opened JsValues
  import opened JsStrings
  import opened SchemaTypes

  // ---------------------------------------------------------------------------
  // getInlinedDefinitionNames

  /** An entry of the inline-definition table: its name and the name template. */
  datatype InlineDefinition = InlineDefinition(name: string, template: string)

  /** The placeholder a template carries for the resource name. */
  const ResourceToken := "${resource}"

  /** The definitions documented inline with a resource, in table order. */
  const InlineDefinitions: seq<InlineDefinition> := [
    InlineDefinition("Spec", "${resource}Spec"),
    InlineDefinition("Status", "${resource}Status"),
    InlineDefinition("List", "${resource}List"),
    InlineDefinition("Strategy", "${resource}Strategy"),
    InlineDefinition("Rollback", "${resource}Rollback"),
    InlineDefinition("RollingUpdate", "RollingUpdate${resource}"),
    InlineDefinition("EventSource", "${resource}EventSource")
  ]

  /** The name one entry yields for `parent`: its template with the first placeholder replaced. */
  function InlinedName(def: InlineDefinition, parent: string): string
  {
    Replace(def.template, ResourceToken, parent)
  }

  /**
   * `getInlinedDefinitionNames`: one name per table entry, in table order,
   * built by appending to an accumulator. For a parent without `$` (which
   * `replace` would interpret) the seven names are spelled out.
   */
  method GetInlinedDefinitionNames(parent: string) returns (names: seq<string>)
    ensures |names| == |InlineDefinitions|
    ensures forall i :: 0 <= i < |names| ==> names[i] == InlinedName(InlineDefinitions[i], parent)
    ensures '$' !in parent ==> names == SpelledOutNames(parent)
  {
    names := [];
    var i := 0;
    while i < |InlineDefinitions|
      invariant 0 <= i <= |InlineDefinitions|
      invariant |names| == i
      invariant forall k :: 0 <= k < i ==> names[k] == InlinedName(InlineDefinitions[k], parent)
    {
      names := names + [InlinedName(InlineDefinitions[i], parent)];
      i := i + 1;
    }
    if '$' !in parent {
      InlinedNamesSpelledOut(parent);
      assert names == SpelledOutNames(parent);
    }
  }

  /** The seven names for a parent, written out by hand. */
  function SpelledOutNames(parent: string): seq<string>
  {
    [parent + "Spec", parent + "Status", parent + "List", parent + "Strategy",
     parent + "Rollback", "RollingUpdate" + parent, parent + "EventSource"]
  }

  /** For a parent without `$`, every table entry yields the name written out by hand. */
  lemma InlinedNamesSpelledOut(parent: string)
    requires '$' !in parent
    ensures forall i :: 0 <= i < |InlineDefinitions| ==>
      InlinedName(InlineDefinitions[i], parent) == SpelledOutNames(parent)[i]
  {
    forall i | 0 <= i < |InlineDefinitions|
      ensures InlinedName(InlineDefinitions[i], parent) == SpelledOutNames(parent)[i]
    {
      var def := InlineDefinitions[i];
      if i == 5 {
        assert def.template == "RollingUpdate" + ResourceToken;
        InlinedNameTrailing(def, parent);
      } else {
        assert def.template == ResourceToken + def.name && SpelledOutNames(parent)[i] == parent + def.name by {
          TableShape(parent, i);
        }
        InlinedNameLeading(def, def.name, parent);
      }
    }
  }

  /** Every entry but `RollingUpdate` is the placeholder followed by the entry's name. */
  lemma TableShape(parent: string, i: nat)
    requires i < |InlineDefinitions| && i != 5
    ensures InlineDefinitions[i].template == ResourceToken + InlineDefinitions[i].name
    ensures SpelledOutNames(parent)[i] == parent + InlineDefinitions[i].name
  {
  }

  /** A template that starts with the placeholder yields the parent followed by the rest of the template. */
  lemma InlinedNameLeading(def: InlineDefinition, suffix: string, parent: string)
    requires def.template == ResourceToken + suffix
    requires '$' !in parent
    ensures InlinedName(def, parent) == parent + suffix
  {
    var s := def.template;
    assert OccursAt(s, ResourceToken, 0) by { assert s[..|ResourceToken|] == ResourceToken; }
    assert s[|ResourceToken|..] == suffix;
  }

  /** The one template that ends with the placeholder yields its fixed prefix followed by the parent. */
  lemma InlinedNameTrailing(def: InlineDefinition, parent: string)
    requires def.template == "RollingUpdate" + ResourceToken
    requires '$' !in parent
    ensures InlinedName(def, parent) == "RollingUpdate" + parent
  {
    var t := def.template;
    assert OccursAt(t, ResourceToken, 13) by { assert t[13..13 + |ResourceToken|] == ResourceToken; }
    FirstOccurrence(t, ResourceToken, 13);
    assert t[..13] == "RollingUpdate" && t[13 + |ResourceToken|..] == "";
  }

  // ---------------------------------------------------------------------------
  // titleize

  predicate IsAsciiLower(c: char)
  {
    'a' <= c <= 'z'
  }

  /** `toUpperCase` on one character, restricted to ASCII letters. */
  function AsciiUpper(c: char): (u: char)
    ensures IsAsciiLower(c) ==> u as int == c as int - 32 && 'A' <= u <= 'Z'
    ensures !IsAsciiLower(c) ==> u == c
  {
    if IsAsciiLower(c) then (c as int - 32) as char else c
  }

  /** `titleize`: the first character upper-cased, the rest as it was. */
  function Titleize(s: string): (r: string)
    ensures |r| == |s|
    ensures forall i :: 1 <= i < |s| ==> r[i] == s[i]
    ensures |s| > 0 ==> r[0] == AsciiUpper(s[0]) && !IsAsciiLower(r[0])
  {
    if |s| == 0 then "" else [AsciiUpper(s[0])] + s[1..]
  }

  /** Titleizing twice is titleizing once. */
  lemma TitleizeIdempotent(s: string)
    ensures Titleize(Titleize(s)) == Titleize(s)
  {
    if |s| > 0 {
      assert Titleize(Titleize(s)) == [AsciiUpper(Titleize(s)[0])] + Titleize(s)[1..];
    }
  }

  /** A string that already starts with anything but a lower-case letter is left unchanged. */
  lemma TitleizeFixedPoint(s: string)
    requires |s| == 0 || !IsAsciiLower(s[0])
    ensures Titleize(s) == s
  {
    if |s| > 0 {
      assert [s[0]] + s[1..] == s;
    }
  }

  // ---------------------------------------------------------------------------
  // createKey

  /** `createKey`: `[group, version, kind].join('.')`, an `undefined` field joining as empty text. */
  function CreateKey(gvk: GvkRecord): string
  {
    Join([JoinText(gvk.group), JoinText(gvk.version), JoinText(gvk.kind)], '.')
  }

  /**
   * The key is the three fields with a dot between each two; the record of a
   * failed classification, whose fields are all `undefined`, gives `..`.
   */
  lemma CreateKeyJoins(gvk: GvkRecord)
    ensures CreateKey(gvk) == JoinText(gvk.group) + "." + JoinText(gvk.version) + "." + JoinText(gvk.kind)
    ensures gvk == GvkRecord(Undefined, Undefined, Undefined) ==> CreateKey(gvk) == ".."
  {
    var parts := [JoinText(gvk.group), JoinText(gvk.version), JoinText(gvk.kind)];
    assert parts[1..][1..] == [parts[2]];
    assert Join(parts[1..], '.') == parts[1] + "." + parts[2];
  }

  /** A key made from dot-free fields splits back into exactly those fields. */
  lemma CreateKeySplits(gvk: GvkRecord)
    requires '.' !in JoinText(gvk.group) && '.' !in JoinText(gvk.version) && '.' !in JoinText(gvk.kind)
    ensures Split(CreateKey(gvk), '.') == [JoinText(gvk.group), JoinText(gvk.version), JoinText(gvk.kind)]
  {
    SplitJoin([JoinText(gvk.group), JoinText(gvk.version), JoinText(gvk.kind)], '.');
  }
}
