/**
 * Classification of schema nodes (lib/util.js): whether a node is a `$ref`,
 * an array, or "complex" (a reference or an array of references), the
 * group/version/kind of the definition a reference names, and the type label
 * `getTypeName` derives for documentation.
 */
module SchemaTypes {
  import opened JsValues
  import opened JsStrings
  import opened Gvk

  /**
   * The part of a schema node these functions read: `type`, `$ref` and
   * `items` (an array's item schema).
   */
  datatype Schema = Schema(declaredType: Value, ref: Value, items: Option<Schema>)

  /** The object `getDefinitionVersionKindFromRef` returns; its fields are `undefined` when classification failed. */
  datatype GvkRecord = GvkRecord(group: Value, version: Value, kind: Value)

  /** The prefix that local references into the definitions registry carry. */
  const DefinitionsPrefix := "#/definitions/"

  /** `isDefinition`: the node carries a (non-empty) `$ref`. */
  predicate IsDefinition(s: Schema)
  {
    Truthy(s.ref)
  }

  /** `isArray`: `type` is `"array"` and `items` is present. */
  predicate IsArray(s: Schema)
  {
    s.declaredType == Str("array") && s.items.Some?
  }

  /** Destructuring the classifier's result: the empty record `{}` gives three `undefined` fields. */
  function ToRecord(g: GuessResult): GvkRecord
  {
    match g
    case GroupVersionKind(group, version, kind) => GvkRecord(Str(group), Str(version), Str(kind))
    case NoFields => GvkRecord(Undefined, Undefined, Undefined)
  }

  /** `getDefinitionVersionKindFromRef`: drop the first `#/definitions/` and classify the rest. */
  function DefinitionVersionKindFromRef(ref: string, rules: seq<Rule>): GvkRecord
  {
    ToRecord(Classify(Replace(ref, DefinitionsPrefix, ""), rules))
  }

  /**
   * A local reference `#/definitions/<name>` is classified by `<name>`; its
   * fields are all defined exactly when the classifier returned a record.
   */
  lemma FromRefClassifiesName(name: string, rules: seq<Rule>)
    ensures var r := DefinitionVersionKindFromRef(DefinitionsPrefix + name, rules);
      r == ToRecord(Classify(name, rules)) &&
      (r.kind.Undefined? <==> Classify(name, rules) == NoFields) &&
      (r.kind.Str? ==> r.group.Str? && r.version.Str?)
  {
    RemovePrefix(DefinitionsPrefix, name);
  }

  /**
   * `getDefinitionVersionKind`: the classification of a direct `$ref`, or of
   * the `$ref` of an array's items, and `null` (`None`) for anything else.
   */
  function DefinitionVersionKind(s: Schema, rules: seq<Rule>): (r: Option<GvkRecord>)
    ensures r.Some? <==> IsDefinition(s) || (IsArray(s) && IsDefinition(s.items.value))
    ensures IsDefinition(s) ==> r == Some(DefinitionVersionKindFromRef(s.ref.s, rules))
    ensures !IsDefinition(s) && IsArray(s) && IsDefinition(s.items.value) ==>
            r == Some(DefinitionVersionKindFromRef(s.items.value.ref.s, rules))
  {
    if IsDefinition(s) then Some(DefinitionVersionKindFromRef(s.ref.s, rules))
    else if IsArray(s) && Truthy(s.items.value.ref) then Some(DefinitionVersionKindFromRef(s.items.value.ref.s, rules))
    else None
  }

  /**
   * `isComplex`: a reference or an array of references. The record returned
   * for a reference is an object, so even a reference the rules cannot
   * classify is complex: the answer does not depend on the rule table.
   */
  function IsComplex(s: Schema, rules: seq<Rule>): (r: bool)
    ensures r <==> IsDefinition(s) || (IsArray(s) && IsDefinition(s.items.value))
  {
    DefinitionVersionKind(s, rules).Some?
  }

  /**
   * `getTypeName`: the kind of a reference, `"<item type> array"` for an
   * array, otherwise the declared `type` as it is (possibly `undefined`).
   */
  function TypeName(s: Schema, rules: seq<Rule>): (r: Value)
    ensures !IsDefinition(s) && IsArray(s) ==> r.Str?
  {
    if IsDefinition(s) then DefinitionVersionKindFromRef(s.ref.s, rules).kind
    else if IsArray(s) then Str(ToText(TypeName(s.items.value, rules)) + " array")
    else s.declaredType
  }

  // ---------------------------------------------------------------------------
  // An independent description of TypeName: peel array layers, then name the base

  /** The number of array layers above the first node that is a reference or not an array. */
  function ArrayDepth(s: Schema): nat
  {
    if !IsDefinition(s) && IsArray(s) then 1 + ArrayDepth(s.items.value) else 0
  }

  /** The node reached after peeling every array layer. */
  function Innermost(s: Schema): (b: Schema)
    ensures IsDefinition(b) || !IsArray(b)
  {
    if !IsDefinition(s) && IsArray(s) then Innermost(s.items.value) else s
  }

  /** The label of a node that is a reference or not an array: the referenced kind, or the declared type. */
  function BaseName(b: Schema, rules: seq<Rule>): Value
  {
    if IsDefinition(b) then DefinitionVersionKindFromRef(b.ref.s, rules).kind else b.declaredType
  }

  function Repeat(s: string, n: nat): string
  {
    if n == 0 then "" else Repeat(s, n - 1) + s
  }

  /**
   * A node's type label is the base name followed by one `" array"` per array
   * layer; every array gets a defined label, spelling a missing base name as
   * `undefined`.
   */
  lemma {:induction false} TypeNameLayers(s: Schema, rules: seq<Rule>)
    ensures ArrayDepth(s) == 0 ==> TypeName(s, rules) == BaseName(Innermost(s), rules)
    ensures ArrayDepth(s) > 0 ==>
      TypeName(s, rules) == Str(ToText(BaseName(Innermost(s), rules)) + Repeat(" array", ArrayDepth(s)))
  {
    if !IsDefinition(s) && IsArray(s) {
      var item := s.items.value;
      TypeNameLayers(item, rules);
      if ArrayDepth(item) == 0 {
        assert Repeat(" array", 1) == " array";
      } else {
        assert Repeat(" array", ArrayDepth(s)) == Repeat(" array", ArrayDepth(item)) + " array";
      }
    }
  }

  /** The `$ref` test comes before the array test: a reference is named by its kind even when it also looks like an array. */
  lemma TypeNameRefFirst(s: Schema, rules: seq<Rule>)
    requires IsDefinition(s)
    ensures TypeName(s, rules) == DefinitionVersionKind(s, rules).value.kind
  {
  }

  /**
   * For an array of references, the label is the referenced kind followed by
   * `" array"`, the same record `getDefinitionVersionKind` reports for it.
   */
  lemma TypeNameOfReferenceArray(s: Schema, rules: seq<Rule>)
    requires !IsDefinition(s) && IsArray(s) && IsDefinition(s.items.value)
    ensures TypeName(s, rules) == Str(ToText(DefinitionVersionKind(s, rules).value.kind) + " array")
  {
  }

  /**
   * The type label of a local reference to a definition the rules classify as
   * `(group, version, kind)` is that kind, and `n` array layers around it add
   * `n` times `" array"`.
   */
  lemma {:induction false} TypeNameOfNestedReference(name: string, rules: seq<Rule>, n: nat)
    requires Classify(name, rules).GroupVersionKind?
    ensures TypeName(ArrayOf(Schema(Undefined, Str(DefinitionsPrefix + name), None), n), rules) ==
            Str(Classify(name, rules).kind + Repeat(" array", n))
  {
    var base := Schema(Undefined, Str(DefinitionsPrefix + name), None);
    var kind := Classify(name, rules).kind;
    BaseNameOfReference(name, rules);
    ArrayOfLayers(base, n);
    TypeNameLayers(ArrayOf(base, n), rules);
    if n == 0 {
      assert kind + Repeat(" array", n) == kind;
    }
  }

  /** A local reference to a classifiable definition is named by its kind. */
  lemma BaseNameOfReference(name: string, rules: seq<Rule>)
    requires Classify(name, rules).GroupVersionKind?
    ensures BaseName(Schema(Undefined, Str(DefinitionsPrefix + name), None), rules) == Str(Classify(name, rules).kind)
  {
    FromRefClassifiesName(name, rules);
  }

  /** `n` array layers wrapped around `item`. */
  function ArrayOf(item: Schema, n: nat): Schema
  {
    if n == 0 then item else Schema(Str("array"), Undefined, Some(ArrayOf(item, n - 1)))
  }

  lemma {:induction false} ArrayOfLayers(item: Schema, n: nat)
    requires IsDefinition(item) || !IsArray(item)
    ensures ArrayDepth(ArrayOf(item, n)) == n && Innermost(ArrayOf(item, n)) == item
  {
    if n > 0 {
      ArrayOfLayers(item, n - 1);
    }
  }
}
