# Type classification for the OpenShift API documentation generator

This project models, in Dafny, the type-classification layer of the
documentation generator (`lib/util.js`). That layer:

- takes a reversed-DNS definition name such as `io.k8s.api.core.v1.Pod` and
  infers its group/version/kind (GVK). Two structural checks on the dot
  segments come first. After them, an ordered table of heuristic rules is
  searched, and the first rule that yields a complete triple wins;
- decides whether a schema node is a `$ref`, an array, or "complex" (a
  reference or an array of references);
- derives the type label shown in the documentation (`Pod`, `Container array`,
  `string`);
- holds three small naming helpers: the names of the definitions documented
  inline with a resource, `titleize` and `createKey`.

## Structure

- `JsValues.dfy`: a property that is `undefined` or a string, JavaScript
  truthiness, and the two string conversions the code relies on. A template
  literal spells `undefined` as `"undefined"`. `Array.prototype.join` spells it
  as `""`.
- `JsStrings.dfy`: the string built-ins used by `lib/util.js`, written out.
  `split` on `.`, `join`, `indexOf`/`includes`, and `replace` with a string
  pattern. `replace` changes the first occurrence only. It expands the `$$`,
  `$&`, `` $` `` and `$'` patterns of the replacement string.
- `Gvk.dfy`: the rule table as data (`Rule`), the classification as a function
  (`Classify`), and `guessGroupVersionKind` as a method with the source's loop.
  The loop consumes a copy of the table with `shift()`, uses `continue`, and
  stops with `break`. The method is proved equal to `Classify`. The first-match
  and structural properties are lemmas about `Classify`.
- `SchemaTypes.dfy`: schema nodes (`type`, `$ref`, `items`), `isDefinition`,
  `isArray`, `getDefinitionVersionKindFromRef`, `getDefinitionVersionKind`,
  `isComplex` and `getTypeName`. `isDefinition` and `isArray` are the predicates
  `IsDefinition` and `IsArray`, and the contracts below are stated with them.
- `Naming.dfy`: `getInlinedDefinitionNames` as a method that appends to an
  accumulator over the fixed seven-entry table. Also `titleize` and `createKey`.

Each rule's regular expression is an opaque function from the whole name to
its named captures (`group`, `version`, `kind`), or to no match. A capture can
be `undefined`. The rule table is a parameter, never a global. Dafny sequences
are values, so the table a caller passes in cannot be changed by the search.

Behaviours of the code that the model keeps:

- When no rule yields a complete triple, the code returns the empty object
  `{}` (`NoFields`). It does not return the all-empty triple. That triple
  (`Ignored`) comes only from the `util`/`pkg` check. Callers then read three
  `undefined` fields, so the type label is `undefined` and the key is `..`.
- A `groupOverride` template has only its first `<group>` replaced, through
  `String.prototype.replace`. A group that did not take part in the match is
  inserted as the text `undefined`.
- `#/definitions/` is removed wherever it first occurs, not only at the start.
- `isComplex` is true for any non-empty `$ref`, even one the rules cannot
  classify, because the record returned for it is always an object.

## Model

| member | source | states |
|---|---|---|
| JsStrings.Split | lib/util.js:21 | `split` always yields at least one piece; JoinSplit, SplitJoin and SplitPiecesFree state what the pieces are |
| JsStrings.Join | lib/util.js:190 | `Array.prototype.join`; JoinSplit, SplitJoin and CreateKeyJoins state what it yields |
| JsStrings.JoinSplit | lib/util.js:21 | joining the pieces of `name.split('.')` with `.` gives back the name |
| JsStrings.SplitJoin | lib/util.js:21 | splitting a join of dot-free segments gives back exactly those segments |
| JsStrings.SplitPiecesFree | lib/util.js:21 | no piece produced by `split` contains the separator |
| JsStrings.IndexOf | lib/util.js:70 | `includes`/`indexOf` finds the first occurrence of the pattern, or reports that it occurs nowhere |
| JsStrings.Expand | lib/util.js:85 | a replacement string without `$` is inserted verbatim |
| JsStrings.ExpandPatterns | lib/util.js:85 | at the head of a replacement string, `$$` stands for `$`, `$&` for the matched text, `` $` `` for the text before it and `$'` for the text after it, and the rest of the string is expanded after it |
| JsStrings.ExpandUnknownPattern | lib/util.js:85 | a `$` followed by any character other than `$`, `&`, `` ` `` or `'` (such as `$1`) stays as written, and the rest of the string is expanded after it |
| JsStrings.ExpandTrailingDollar | lib/util.js:85 | a `$` that ends the replacement string, after any run of text without `$`, stays as written |
| JsStrings.ExpandLiteralRun | lib/util.js:85 | a run of text without `$` at the head of a replacement string is copied as it is, and the rest is expanded after it |
| JsStrings.Replace | lib/util.js:85 | `replace` leaves a string without the pattern unchanged; otherwise, whatever the replacement string, the text before and after the first occurrence is kept, and a replacement without `$` is inserted there verbatim |
| JsStrings.ReplaceMatchedText | lib/util.js:85 | replacing the first occurrence by `$&` (the matched text) gives back the string |
| JsStrings.ReplaceSurroundingText | lib/util.js:85 | replacing the first occurrence by `` $` `` inserts the text before it, and by `$'` the text after it |
| JsStrings.RemovePrefix | lib/util.js:124 | removing `#/definitions/` from `#/definitions/<name>` leaves `<name>` |
| Gvk.GuessGroupVersionKind | lib/util.js:19-104 | the loop over the copied table returns exactly the classification `Classify` of the name and table |
| Gvk.RuleGroup | lib/util.js:84-85 | the group a rule reports: the capture, or the override template with its first `<group>` replaced; GroupOverrideSubstitutes and GroupOverrideWithoutToken state it |
| Gvk.ApplyRule | lib/util.js:69-90 | a rule contributes a triple iff its filter occurs in the name, its pattern matches, and the group (after override), version and kind are all non-empty; the triple is made of those three values |
| Gvk.SearchRules | lib/util.js:67-97 | the first-match search; SearchRulesShape, SearchRulesFirstMatch, SearchRulesFails, SearchRulesWitness and SearchRulesSkipsFiltered state it |
| Gvk.Classify | lib/util.js:19-104 | the whole classification; ClassifyApiSegments, ClassifyIgnoredSegments, ClassifyByRules and ClassifyShape state it |
| Gvk.ClassifyApiSegments | lib/util.js:29-64 | third-from-last segment `api` with non-empty version and kind gives `core`/version/kind, whatever the rule table holds |
| Gvk.ClassifyIgnoredSegments | lib/util.js:53-61 | third-from-last segment `util` or `pkg` gives the all-empty triple, whatever the rule table holds |
| Gvk.ClassifyByRules | lib/util.js:63-67 | any other name, including an `api` name with an empty version or kind, is classified by the rule search alone |
| Gvk.ClassifyShape | lib/util.js:56-103 | every result is a fully non-empty triple, the all-empty triple, or the empty record |
| Gvk.SearchRulesShape | lib/util.js:87-97 | the rule search yields a fully non-empty triple or the empty record |
| Gvk.SearchRulesFirstMatch | lib/util.js:67-92 | if rule i yields a triple and no earlier rule does, the search returns rule i's triple, and later rules play no part |
| Gvk.SearchRulesFails | lib/util.js:94-97 | the search returns the empty record iff no rule of the table yields a complete triple |
| Gvk.SearchRulesWitness | lib/util.js:87-103 | a successful result comes from some rule i of the table, and every earlier rule yields nothing |
| Gvk.SearchRulesSkipsFiltered | lib/util.js:70-71 | deleting a rule whose filter does not occur in the name does not change the result |
| Gvk.GroupOverrideSubstitutes | lib/util.js:84-85 | with an override template and a captured group whose text holds no `$`, the group is the template with its first `<group>` replaced by that text (`undefined` when the group did not take part in the match) |
| Gvk.GroupOverrideWithoutToken | lib/util.js:84-85 | an override template without `<group>` is reported verbatim |
| SchemaTypes.IsDefinition | lib/util.js:172-174 | a node is a reference iff its `$ref` is a non-empty string; IsComplex and DefinitionVersionKind are stated with it |
| SchemaTypes.IsArray | lib/util.js:164-166 | a node is an array iff its `type` is `array` and `items` is present; IsComplex and DefinitionVersionKind are stated with it |
| SchemaTypes.DefinitionVersionKindFromRef | lib/util.js:123-138 | classification of the name after the first `#/definitions/`; FromRefClassifiesName states it |
| SchemaTypes.FromRefClassifiesName | lib/util.js:123-138 | `#/definitions/<name>` is classified by `<name>`; the kind is `undefined` exactly when classification returned the empty record |
| SchemaTypes.DefinitionVersionKind | lib/util.js:141-162 | non-null iff the node is a `$ref` or an array whose items are a `$ref`; the direct `$ref` takes precedence, and otherwise the items' `$ref` is classified |
| SchemaTypes.IsComplex | lib/util.js:168-170 | true iff the node is a `$ref` or an array of `$ref` items, independent of the rule table |
| SchemaTypes.TypeName | lib/util.js:107-121 | an array that is not a reference always gets a defined label; TypeNameLayers, TypeNameRefFirst and TypeNameOfReferenceArray state the label |
| SchemaTypes.TypeNameLayers | lib/util.js:107-121 | the label is the base name (referenced kind or declared type) followed by one ` array` per array layer; with no array layer it is the base name itself, possibly `undefined` |
| SchemaTypes.TypeNameRefFirst | lib/util.js:110-113 | a `$ref` node is labelled with its kind even if it also looks like an array |
| SchemaTypes.TypeNameOfReferenceArray | lib/util.js:115-118 | an array of references is labelled `<kind> array`, using the kind `getDefinitionVersionKind` reports |
| SchemaTypes.TypeNameOfNestedReference | lib/util.js:107-131 | n array layers around a reference to a classifiable definition are labelled with its kind followed by n copies of ` array` |
| Naming.GetInlinedDefinitionNames | lib/util.js:176-182 | one name per table entry in table order, each the entry's template with `${resource}` replaced; for a parent without `$` these are Spec, Status, List, Strategy, Rollback, RollingUpdate-prefixed and EventSource names |
| Naming.InlinedNamesSpelledOut | lib/util.js:7-15 | each of the seven templates yields its hand-written name for a parent without `$` |
| Naming.Titleize | lib/util.js:184-186 | same length, the first character upper-cased (never a lower-case letter afterwards), every other character unchanged, `""` maps to `""` |
| Naming.TitleizeIdempotent | lib/util.js:184-186 | titleizing twice equals titleizing once |
| Naming.TitleizeFixedPoint | lib/util.js:184-186 | a string that does not start with a lower-case letter is unchanged |
| Naming.CreateKey | lib/util.js:188-191 | `[group, version, kind].join('.')`; CreateKeyJoins and CreateKeySplits state it |
| Naming.CreateKeyJoins | lib/util.js:188-191 | the key is `group.version.kind`, with `undefined` fields as empty text, so a failed classification gives `..` |
| Naming.CreateKeySplits | lib/util.js:188-191 | a key built from dot-free fields splits back into the three fields |

## Left out

- Loading `config/gvk.yaml` with `fs` and `js-yaml` at module load (lib/util.js:1-5) is file I/O. The rule table is a parameter instead.
- The regular-expression engine (lib/util.js:74-82) is not modelled. Each rule's anchored pattern is an opaque matcher on the whole name.
- A pattern that does not compile makes `RegExp` throw. A pattern without named groups leaves `matches.groups` undefined, and destructuring it throws. Neither case is modelled: the matcher always yields a capture record or no match.
- Gvk.GuessGroupVersionKind: a table entry that is itself falsy (a `null` list item) would end the `while (match = shift())` loop early. Table entries here are always rules.
- The `console.log` diagnostics (lib/util.js:88, lib/util.js:95) only log.
- The commented-out GVK branches (lib/util.js:35-50) and the Go `LessThan` sketch (lib/util.js:203-232) are dead code.
- The unused locals `name` and `len` in `getDefinitionVersionKindFromRef` (lib/util.js:125-126) have no effect.
- Naming.Titleize: upper-cases ASCII letters only. JavaScript's `toUpperCase` also maps other letters, sometimes to more than one character. The model also works on characters, while `charAt` and `slice` work on UTF-16 code units.
- Schema nodes are modelled with only `type`, `$ref` and `items`. Non-string values of `type` or `$ref`, and non-object `items`, are not modelled.
- The flattener and reference resolver (`flattenProps`, `resolveRef`) live in lib/properties.js, which is not part of this model. The JSON fixtures their tests use are not part of it either.
