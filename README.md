# CRD documentation generator, modelled in Dafny

This project models the core of a tool that turns Kubernetes
CustomResourceDefinitions (CRDs) into Markdown reference documentation. It
covers four parts:

- **Reader.** From the documents of a YAML stream, it keeps the v1 CRDs in
  stream order (`YamlReader`).
- **Converter.** Each CRD becomes an `APIDocumentation` (`Converter`):
  - It picks the storage version.
  - It flattens the `spec` and `status` schemas into dotted field paths, in
    pre-order.
  - It derives each field's type string.
  - It extracts the immutability rule (`self == oldSelf`) from the CEL
    validations.
  - It copies the optional attributes.
- **Quick reference.** It builds the quick-reference table with its three
  filters: optional fields, depth, and status fields (`Table`).
- **Markdown writer.** It builds the mdast tree and hands it to the
  serializer (`MarkdownAst`, `MarkdownFootnotes`, `MarkdownFields`,
  `MarkdownDocument`):
  - overview, quick-reference table, and one section per field with its
    constraints, default and examples;
  - immutability footnotes collected in a shared map;
  - the combined document, sorted by kind, with a table of contents and all
    footnote definitions at the end;
  - the `join` rule handed to the serializer.

`JsValues` and `JsStrings` hold the JavaScript semantics the code relies on:
- truthiness and `undefined`;
- `trim` with ECMAScript whitespace;
- ASCII `toLowerCase`, `replaceAll`, `split(".").length` and `String(n)`.

`Crd` and `Document` hold the input and output records.

Loops in the source become methods proved equal to a specification
function. The JavaScript `Map` of footnotes becomes a class
(`MarkdownFootnotes.FootnotePool`) whose `Set` method updates a key in place
or appends it. The properties are proved as lemmas about those functions.

The foreign libraries are function-typed fields of `MarkdownAst.Libraries`:
- the markdown parser;
- `yaml.dump`;
- `JSON.stringify`;
- the serializer.

The YAML loader is a parameter of `YamlReader.ParseContent`, and the clock is
a parameter of `Converter.ConvertCRDsToDocuments`.

## Model

| member | source | states |
|---|---|---|
| JsValues.KeepTruthy | ts/models/converter.ts:120-122 | an optional string is copied iff it is present and non-empty, and then unchanged |
| JsValues.Get | ts/reader/yaml.ts:22-25 | `obj[key]` is defined iff the key is in the object, and the member it returns is one of the object's members |
| JsStrings.Trim | ts/models/converter.ts:102 | the result is no longer than the input and starts and ends with a non-whitespace character |
| JsStrings.TrimDecomposition | ts/models/converter.ts:102 | `trim` removes only whitespace: the input is whitespace + result + whitespace |
| JsStrings.ToLowerAscii | ts/writer/markdown.ts:327 | same length; each upper-case ASCII letter is lowered and every other character is kept |
| JsStrings.ReplaceChar | ts/writer/markdown.ts:450 | `replaceAll(" ", "_")`: same length; each occurrence is replaced and every other character is kept |
| JsStrings.SplitCount | ts/models/table.ts:46 | `split(".").length` is at least 1, and exactly 1 iff the text has no dot |
| JsStrings.IntToString | ts/writer/markdown.ts:489 | `String(n)` is non-empty and starts with a minus sign iff the number is negative |
| JsStrings.JoinWith | ts/models/converter.ts:303 | joining no parts gives the empty string; joining one part gives that part |
| JsStrings.JoinWithLast | ts/models/converter.ts:303-311 | a join of two or more parts is the join of all but the last, then the separator, then the last part |
| JsStrings.JoinWithLength | ts/models/converter.ts:303-311 | a join is as long as its parts together plus one separator between each two neighbours |
| JsStrings.JoinWithSeparatorCount | ts/models/converter.ts:303-311 | a one-character separator that no part contains occurs exactly once between each two neighbours and nowhere else |
| Converter.FieldType | ts/models/converter.ts:293-315 | a truthy `type` wins: an array with `items` ends in `[]`, an array without is `array`, any other type is itself; with no type and no combinator the type is `any` |
| Converter.FieldTypeResolution | ts/models/converter.ts:293-315 | for every schema: an array with `items` is the resolved type of its items followed by `[]`; without a type the first present combinator decides, `oneOf` and `anyOf` joining their members' resolved types with a space-padded vertical bar and `allOf` with ` & ` |
| Converter.MemberTypes | ts/models/converter.ts:302-312 | one type per combinator member, in order, each that member's own type |
| Converter.TypeShadowsCombinators | ts/models/converter.ts:294-300 | with a truthy `type`, `oneOf`, `anyOf` and `allOf` never change the result |
| Converter.OneOfShadowsAnyOfAndAllOf | ts/models/converter.ts:302-304 | when `oneOf` is present, `anyOf` and `allOf` never change the result |
| Converter.AnyOfShadowsAllOf | ts/models/converter.ts:306-308 | when `anyOf` is present and `oneOf` absent, `allOf` never changes the result |
| Converter.FieldTypeExamples | ts/models/converter.ts:293-315 | `string[]` for an array of strings, `array` for an array without items, `any` for an empty schema |
| Converter.OneOfTypeExample | ts/models/converter.ts:302-304 | `oneOf` member types are joined by a vertical bar between spaces |
| Converter.AllOfTypeExample | ts/models/converter.ts:310-312 | `allOf` members are joined with ` & ` |
| Converter.CreateFieldInfoContents | ts/models/converter.ts:227-291 | the field info carries the path, the type and the required flag; description, format and pattern only when truthy; every other attribute exactly when the schema defines it |
| Converter.CreateFieldInfo | ts/models/converter.ts:227-240 | the descriptor has the path and the required flag passed in and the resolved type of the schema |
| Converter.AssignFieldProperties | ts/models/converter.ts:242-291 | copying attributes never touches the path, the type or the required flag |
| Converter.AssignFieldPropertiesIdempotent | ts/models/converter.ts:242-291 | assigning the same schema a second time changes nothing |
| Converter.FlattenRange | ts/models/converter.ts:172-191 | a run of properties yields at least one field per property |
| Converter.FlattenRangeSplit | ts/models/converter.ts:172-191 | the fields of a run of properties are those of its first part followed by those of the rest |
| Converter.FlattenRangeExtend | ts/models/converter.ts:172-191 | one more property adds exactly that property's own field and its nested fields, at the end |
| Converter.Flatten | ts/models/converter.ts:162-195 | at least one field per property; none for a schema without properties |
| Converter.ExtractFieldsFromSchema | ts/models/converter.ts:162-195 | the property loop produces exactly the pre-order flattening `Flatten` |
| Converter.ExtractNestedFields | ts/models/converter.ts:197-224 | the nested fields are those of an object child, then those of an array child's object items |
| Converter.FlattenRangeUnderBase | ts/models/converter.ts:172-191 | every emitted path lies strictly below the base path (starts with `base.`) |
| Converter.NestedUnderPath | ts/models/converter.ts:197-224 | every nested field lies strictly below its parent field's path |
| Converter.RootIsNotEmitted | ts/models/converter.ts:46-52 | the root (`spec`/`status`) is never a field itself; every path has at least two dot-separated segments |
| Converter.FlattenPreOrder | ts/models/converter.ts:172-191 | the i-th property's own field follows at least one field per earlier property and comes right before its nested fields, which come before the later properties' fields |
| Converter.ArrayItemsUseArrayPath | ts/models/converter.ts:212-221 | the fields of an array's object items are flattened under the array field's own path, with no index segment |
| Converter.NestedObjectExample | ts/models/converter.ts:162-224 | `spec.storage`, `spec.storage.size` (required) and `spec.storage.class`, in this order, for a nested object schema |
| Converter.FindImmutabilityRuleFrom | ts/models/converter.ts:101-104 | a found index lies at or after the start and holds a rule whose trimmed text is `self == oldSelf` or `oldSelf == self` |
| Converter.FindImmutabilityRuleFirst | ts/models/converter.ts:101-104 | the found rule is the first such rule from the start, and nothing is found only when no rule from the start is one |
| Converter.RemoveFirstAt | ts/models/converter.ts:109-111 | filtering out the found rule keeps every other rule, in order |
| Converter.HandleImmutability | ts/models/converter.ts:97-113 | without an immutability rule the document is unchanged; otherwise only `immutable` and `validationRules` change |
| Converter.ConvertFieldInfoToDoc | ts/models/converter.ts:79-95 | path, type and required are copied; the example (when truthy) becomes the only example; description, format and pattern only when truthy; bounds, enum, default, nullable and uniqueItems when defined; `immutable` holds an immutability rule, and without one the validations are unchanged |
| Converter.CopyOptionalProperties | ts/models/converter.ts:115-159 | copying optional attributes leaves the path, type, required flag, validation rules, examples and `immutable` as they were |
| Converter.ImmutabilityExtraction | ts/models/converter.ts:97-113 | `immutable` is set iff some rule is an immutability rule; then it is the first such rule, and the remaining validations are all the others, in order |
| Converter.ReplicaRulesSearch | ts/models/converter.ts:101-111 | in a three-rule list whose middle rule is `self == oldSelf`, the search finds the middle one and the filter keeps the outer two |
| Converter.ImmutabilityExample | ts/models/converter.ts:79-113 | a `spec.replicas` field with that rule list becomes immutable by `self == oldSelf` and keeps the other two rules |
| Converter.StorageVersion | ts/models/converter.ts:33 | the first version flagged `storage`; none iff no version is |
| Converter.PropertyNamed | ts/models/converter.ts:39-40 | `properties?.[name]`: absent iff no property has the name; otherwise it is that property's schema |
| Converter.FieldDocs | ts/models/converter.ts:45-53 | no fields for an absent sub-schema; otherwise one converted document per flattened field, in order |
| Converter.ConvertCRDToAPIDoc | ts/models/converter.ts:32-77 | fails iff there is no storage version, naming the CRD; otherwise title and kind are the CRD kind, plus group, storage version name, scope, description when truthy, spec and status fields, and names metadata |
| Converter.FieldDocsUnderRoot | ts/models/converter.ts:45-53 | every field document's path lies below its root |
| Converter.FieldPathsUnderRoots | ts/models/converter.ts:32-77 | spec fields lie under `spec` and status fields under `status` |
| Converter.ConvertCRDsToDocuments | ts/models/converter.ts:13-29 | fails iff some CRD fails, with the first failing CRD's error; otherwise one document per CRD in input order, stamped with the given time and source files |
| Table.Depth | ts/models/table.ts:46 | a path's depth is at least 1, and exactly 1 iff it has no dot |
| Table.Entries | ts/models/table.ts:38-59 | at most one row per field |
| Table.ProcessFields | ts/models/table.ts:38-59 | the loop appends the rows of the kept fields and raises the depth flag iff a non-skipped field is too deep |
| Table.GetQuickReferenceTable | ts/models/table.ts:24-70 | the table is `QuickReference` with the defaults (status included, all fields, depth 2) for absent options |
| Table.QuickReference | ts/models/table.ts:24-70 | at most one row per processed field, with every spec row present; a depth omission among the spec fields always raises the flag |
| Table.GetRequiredFieldsTable | ts/models/table.ts:75-82 | only spec fields, only required ones, of depth at most 2 |
| Table.GetTopLevelFieldsTable | ts/models/table.ts:87-93 | every row's path has no dot |
| Table.EntriesMembership | ts/models/table.ts:38-59 | a row is present iff some field passes both filters and produces exactly that row |
| Table.OmitsForDepthWitness | ts/models/table.ts:41-50 | the depth flag is set iff some field that is not skipped as optional is deeper than the limit |
| Table.RowsRespectFilters | ts/models/table.ts:24-70 | with `onlyRequired` every row is required; with a non-zero depth every row is within it |
| Table.StatusFieldsExcluded | ts/models/table.ts:64-67 | without `includeStatusFields` the status fields affect neither the rows nor the flag |
| Table.ShallowDocumentKeepsEverything | ts/models/table.ts:24-70 | with default options, a document whose paths are all at most 2 deep gets one row per field and no depth flag |
| Table.AllKept | ts/models/table.ts:38-59 | when nothing is too deep and optional fields are kept, every field yields a row and the flag stays clear |
| Table.TopLevelTableOfConvertedDocument | ts/models/table.ts:87-93 | on a converted CRD the depth-1 table has no rows, and its flag is set iff the document has any field |
| Table.DeepFieldsDropped | ts/models/table.ts:46-50 | fields below a root yield no row at depth 1, and the flag is set iff there is any field |
| MarkdownAst.HeadingNode | ts/writer/markdown.ts:582-590 | a heading whose depth is clamped to 1..6 (kept when in range) and whose children are the given ones |
| MarkdownAst.BulletList | ts/writer/markdown.ts:616-621 | an unordered list with one list item per item, each holding one paragraph of that item's nodes |
| MarkdownAst.ComplexListItem | ts/writer/markdown.ts:624-652 | a list item ending with the item's blocks in order, preceded by one paragraph exactly when the inline part is non-empty (with `ParagraphIffInline`: when the item has an inline element) |
| MarkdownAst.ComplexBulletList | ts/writer/markdown.ts:623-655 | an unordered list with one list item per item |
| MarkdownAst.BulletListOfInlineItems | ts/writer/markdown.ts:616-655 | on non-empty items without blocks, `complexBulletList` and `bulletList` build the same list |
| MarkdownAst.Join | ts/writer/markdown.ts:48-79 | zero or one blank line; zero only between list items or after a paragraph; always zero between list items and from a paragraph to a code block; from a paragraph to a list zero iff the paragraph holds a strong `Constraints` or `Example` label |
| MarkdownAst.InlinePart | ts/writer/markdown.ts:631-639 | the inline part holds no code block or list |
| MarkdownAst.BlockPart | ts/writer/markdown.ts:631-639 | the block part holds only code blocks and lists |
| MarkdownAst.ItemPartition | ts/writer/markdown.ts:626-652 | the inline and block parts together are a rearrangement of the item: nothing lost, nothing added |
| MarkdownAst.ParagraphIffInline | ts/writer/markdown.ts:643-646 | a list item opens with a paragraph iff the item has an inline element |
| MarkdownAst.SplitItem | ts/writer/markdown.ts:631-639 | the element loop computes the inline part and the block part, each in original order |
| MarkdownAst.BuildComplexBulletList | ts/writer/markdown.ts:623-655 | `complexBulletList`: one list item per item, built by the split |
| MarkdownAst.CommaSeparatedCodeShape | ts/writer/markdown.ts:516-521 | value i is inline code at position 2i, with a `, ` separator between neighbours and nowhere else |
| MarkdownAst.SeparateBefore | ts/writer/markdown.ts:516-521 | the allowed-values loop builds the comma-separated run |
| MarkdownAst.SeparateAfter | ts/writer/markdown.ts:272-280 | the short-names loop builds the same comma-separated run |
| MarkdownFootnotes.IndexOfFrom | ts/writer/markdown.ts:463 | the position of the first key equal to the id at or after the start, or none when no key matches |
| MarkdownFootnotes.MapSetSpec | ts/writer/markdown.ts:463 | `Map.set` keeps keys distinct, makes the id map to the formula, leaves every other key's value alone, and appends the id iff it was new |
| MarkdownFootnotes.IndexOfUnique | ts/writer/markdown.ts:463 | the search finds the first position holding the id |
| MarkdownFootnotes.MapSetUnchanged | ts/writer/markdown.ts:463 | setting a key to the value it already holds leaves the map as it is |
| MarkdownFootnotes.FootnotePool.Set | ts/writer/markdown.ts:463 | the map is updated in place as `MapSet` says, and its keys stay distinct |
| MarkdownFootnotes.FootnoteIdInjective | ts/writer/markdown.ts:450 | for formulas without underscores, the footnote id determines the formula |
| MarkdownFootnotes.ImmutabilityRuleHasNoUnderscore | ts/models/converter.ts:101-104 | an immutability rule contains no underscore |
| MarkdownFootnotes.FootnoteIdsOfImmutabilityRules | ts/writer/markdown.ts:450-463 | two immutability rules share a footnote id iff they are the same text, so no formula overwrites another's |
| MarkdownFootnotes.FootnoteDefinitions | ts/writer/markdown.ts:334-354 | one definition per map entry, in insertion order, each identified by its key and holding one paragraph: the immutability note, then the entry's formula as inline code |
| MarkdownFootnotes.AddFootnoteDefinitions | ts/writer/markdown.ts:334-354 | the loop over the map builds exactly those definitions |
| MarkdownFootnotes.LookupDefinition | ts/writer/markdown.ts:334-354 | the formula the map holds under an id is the one shown by the definition with that id |
| MarkdownFields.AddImmutabilityConstraint | ts/writer/markdown.ts:441-465 | an item with a footnote reference iff `immutable` is truthy, and the map gains the id-to-formula entry |
| MarkdownFields.LastRegistered | ts/writer/markdown.ts:441-466 | a formula is found iff some field registers the id, and it is the formula of such a field |
| MarkdownFields.RegisteredFormula | ts/writer/markdown.ts:441-466 | after registration an id maps to the formula of the last field registering it, as `Map.set` overwrites; other ids keep their value |
| MarkdownFields.NumericItems | ts/writer/markdown.ts:483-492 | at most one item per bound |
| MarkdownFields.AddNumericConstraints | ts/writer/markdown.ts:467-493 | the loop over the six bounds builds the specified items |
| MarkdownFields.ValidationItems | ts/writer/markdown.ts:526-540 | exactly one item per validation rule |
| MarkdownFields.AddValidationRules | ts/writer/markdown.ts:526-540 | the loop builds those items in rule order |
| MarkdownFields.AddOtherConstraints | ts/writer/markdown.ts:495-541 | unique items, pattern, allowed values and validations, in this order, as specified |
| MarkdownFields.AddConstraintsToList | ts/writer/markdown.ts:415-439 | a "Constraints" item holding the nested list iff any constraint exists, with the footnote registered |
| MarkdownFields.ConstraintCount | ts/writer/markdown.ts:415-541 | one constraint item per truthy immutable, defined bound, true uniqueItems, truthy pattern, non-empty enum and validation rule; the section is present iff one exists |
| MarkdownFields.NumericCount | ts/writer/markdown.ts:483-492 | one numeric item per defined bound |
| MarkdownFields.OtherCount | ts/writer/markdown.ts:495-541 | one item per true uniqueItems, truthy pattern, non-empty enum and validation rule |
| MarkdownFields.AddExamplesToList | ts/writer/markdown.ts:543-579 | one item per example, in order |
| MarkdownFields.BasicFieldInfo | ts/writer/markdown.ts:394-413 | two items: `Type:` with the type as inline code, followed by the format in parentheses iff the format is non-empty; then `Required` iff the field is required |
| MarkdownFields.ValueItem | ts/writer/markdown.ts:720-754 | a single-line trimmed YAML dump is inline code after `caption:`; a multi-line one is a `yaml` code block after the caption |
| MarkdownFields.DefaultValueItems | ts/writer/markdown.ts:720-754 | exactly one item iff the field has a default value |
| MarkdownFields.ValueItemShape | ts/writer/markdown.ts:720-754 | a default or example item is inline only (`caption:` plus inline code) or a label then exactly one `yaml` block |
| MarkdownFields.AddFieldSection | ts/writer/markdown.ts:357-391 | heading with the path, the parsed description when truthy, then one list of type, requiredness, constraints, default and examples; the field's footnote is registered |
| MarkdownFields.AddFieldsSection | ts/writer/markdown.ts:311-332 | section heading, then each field's section in order, or the "No … fields defined" placeholder when there are none; every field's footnote is registered |
| MarkdownFields.FieldHeadingsInOrder | ts/writer/markdown.ts:319-323 | every field gets its own heading, and each section is at least two nodes |
| MarkdownFields.RegisteredIds | ts/writer/markdown.ts:441-465 | registering fields keeps keys distinct; an id ends up in the map iff it was there or some field registers it |
| MarkdownFields.TightItem | ts/writer/markdown.ts:623-655 | an item with at most one block after inline content renders without blank lines |
| MarkdownFields.TightList | ts/writer/markdown.ts:623-655 | a list of such items renders without blank lines |
| MarkdownFields.ConstraintItemShapes | ts/writer/markdown.ts:415-541 | every constraint item has the tight shape |
| MarkdownFields.NumericItemShapes | ts/writer/markdown.ts:483-492 | every numeric item has the tight shape |
| MarkdownFields.OtherItemShapes | ts/writer/markdown.ts:495-541 | every other-constraint item has the tight shape |
| MarkdownFields.PatternShape | ts/writer/markdown.ts:503-508 | the pattern item has the tight shape: a label, then a `regex` block |
| MarkdownFields.AllowedValuesShape | ts/writer/markdown.ts:511-523 | the allowed-values item is inline only |
| MarkdownFields.ValidationShapes | ts/writer/markdown.ts:526-540 | every validation item has the tight shape: a label and a message, then a `cel` block |
| MarkdownFields.ConstraintsShape | ts/writer/markdown.ts:431-438 | the "Constraints" item has the tight shape: the label, then a nested list |
| MarkdownFields.LabelledListShape | ts/writer/markdown.ts:431-438 | a "Constraints" label followed by a list of tight items is itself tight |
| MarkdownFields.FieldListIsTight | ts/writer/markdown.ts:46-79 | under the `join` rule, a field's information list renders with no blank line anywhere inside it |
| MarkdownDocument.AddOverviewSection | ts/writer/markdown.ts:236-286 | the overview is a bullet list of the specified items |
| MarkdownDocument.OverviewShape | ts/writer/markdown.ts:240-283 | API version `group/version` first, then scope; plural, singular and short names only when present, with the first short name right after the label |
| MarkdownDocument.TruncateDescription | ts/writer/markdown.ts:713-718 | a short description is kept; a longer one is cut to exactly the limit, ending in `...`, with the kept prefix unchanged |
| MarkdownDocument.RenderQuickReferenceTable | ts/writer/markdown.ts:658-711 | a header row, then one four-cell row per table entry |
| MarkdownDocument.TableShape | ts/writer/markdown.ts:658-711 | one row per entry plus the header; the path is inline code; the required cell is non-empty iff the field is required; the description cell holds at most 60 characters |
| MarkdownDocument.AddQuickReferenceSection | ts/writer/markdown.ts:288-309 | appends the section as specified |
| MarkdownDocument.QuickReferenceSectionPresence | ts/writer/markdown.ts:288-309 | the section exists iff some spec or status field is at most 2 deep, and the depth note is present iff a field was omitted for depth |
| MarkdownDocument.BuildDocumentASTWithFootnotes | ts/writer/markdown.ts:187-234 | title, description, overview, quick reference, spec and status sections, then definitions for every footnote in the map; the map gains the document's immutability footnotes |
| MarkdownDocument.RenderAPIDocumentation | ts/writer/markdown.ts:35-85 | serializes the document tree built with a fresh footnote map under the `join` rule |
| MarkdownDocument.DefinesIffLookup | ts/writer/markdown.ts:334-354 | a definition with an id exists iff the map holds the id |
| MarkdownDocument.DocumentFootnotesMatchReferences | ts/writer/markdown.ts:187-234 | a single document defines each footnote exactly once, and an id is defined iff one of its fields references it |
| MarkdownDocument.DocumentFootnoteShowsFormula | ts/writer/markdown.ts:187-234 | every field with a non-empty `immutable` has a footnote definition, under its own id, that shows its own formula, when no two of the document's formulas collide on an id |
| MarkdownDocument.DocumentBody | ts/writer/markdown.ts:187-229 | the body opens with the title heading, has the overview list right after the parsed description, and has the Spec section heading before the Status section heading |
| MarkdownDocument.KindLeqTotal | ts/writer/markdown.ts:97-99 | any two kinds are comparable |
| MarkdownDocument.KindLeqTransitive | ts/writer/markdown.ts:97-99 | the kind order is transitive |
| MarkdownDocument.InsertByKindPermutation | ts/writer/markdown.ts:97-99 | insertion adds exactly the new document |
| MarkdownDocument.InsertByKindSorted | ts/writer/markdown.ts:97-99 | insertion keeps the order sorted |
| MarkdownDocument.SortByKindPermutation | ts/writer/markdown.ts:97-99 | the sort keeps every document with its multiplicity |
| MarkdownDocument.SortByKindSorted | ts/writer/markdown.ts:97-99 | the sort orders the documents by kind |
| MarkdownDocument.SortByKindSpec | ts/writer/markdown.ts:97-99 | the sort is a permutation of the input and is ordered by kind |
| MarkdownDocument.SortByKind | ts/writer/markdown.ts:97-99 | the sorted copy has as many documents as the input |
| MarkdownDocument.CollapseWhitespace | ts/writer/markdown.ts:104 | `replace(/\s+/g, "-")` leaves no whitespace, is never longer than its input, and every character of the result is a hyphen or comes from the input |
| MarkdownDocument.CollapseWhitespaceAppend | ts/writer/markdown.ts:104 | text that does not start with whitespace is collapsed on its own when appended |
| MarkdownDocument.CollapseWhitespaceRunEnd | ts/writer/markdown.ts:104 | a whitespace run of any length after non-whitespace becomes exactly one hyphen |
| MarkdownDocument.CollapseWhitespaceRun | ts/writer/markdown.ts:104 | a maximal whitespace run between two pieces of text becomes one hyphen, and each side is collapsed on its own |
| MarkdownDocument.CollapseWhitespaceIdentity | ts/writer/markdown.ts:104 | text without whitespace is unchanged |
| MarkdownDocument.CollapseWhitespaceExample | ts/writer/markdown.ts:104 | a run of spaces becomes a single `-` |
| MarkdownDocument.Anchor | ts/writer/markdown.ts:104 | a kind's anchor has no whitespace and no upper-case ASCII letter, and is no longer than the kind |
| MarkdownDocument.WithoutFootnoteDefinitions | ts/writer/markdown.ts:114-116 | the filter leaves no footnote definition and keeps exactly the other children; a list without definitions comes back unchanged |
| MarkdownDocument.WithoutFootnoteDefinitionsAppend | ts/writer/markdown.ts:114-116 | filtering keeps every other child, in order, piece by piece |
| MarkdownDocument.DefinitionsFiltered | ts/writer/markdown.ts:114-116 | the filter removes every definition a document appended |
| MarkdownDocument.AppendDocumentSections | ts/writer/markdown.ts:110-117 | pushes each sorted document's children without its footnote definitions, in order, after the given children; the shared map ends holding the footnotes of all documents in turn |
| MarkdownDocument.RenderCombinedDocumentation | ts/writer/markdown.ts:87-184 | serializes: title, table of contents, each sorted document's children without footnote definitions, then definitions for the shared map |
| MarkdownDocument.CombinedContents | ts/writer/markdown.ts:96-108 | the table of contents exists iff there is an API, has one entry per API, in kind order, each with a whitespace-free anchor |
| MarkdownDocument.CombinedDefinitionsLast | ts/writer/markdown.ts:87-135 | the combined tree opens with the title, and a child is a footnote definition iff it lies in the trailing block of shared definitions |
| MarkdownDocument.ChildrenDefinitionsLast | ts/writer/markdown.ts:110-135 | same, for any table of contents, document bodies and map |
| MarkdownDocument.CombinedFootnotesDistinct | ts/writer/markdown.ts:91-117 | the shared map defines each id once across all documents; an id is present iff some document references it |
| YamlReader.IsCRD | ts/reader/yaml.ts:17-27 | accepted iff the document is an object whose `apiVersion` is `apiextensions.k8s.io/v1` and whose `kind` is `CustomResourceDefinition` |
| YamlReader.CrdDocuments | ts/reader/yaml.ts:4-15 | never longer than the stream, and every kept document is a CRD |
| YamlReader.CrdDocumentsMembership | ts/reader/yaml.ts:8-12 | a document is in the result iff it is in the stream and is a CRD |
| YamlReader.ParseContent | ts/reader/yaml.ts:4-15 | the loop keeps exactly the CRD documents of the loaded stream, in order |
| YamlReader.CrdDocumentsAppend | ts/reader/yaml.ts:8-12 | each document is kept or dropped on its own, so stream order is preserved |
| YamlReader.CrdDocumentsIdempotent | ts/reader/yaml.ts:8-12 | filtering the result again changes nothing |
| YamlReader.CrdDocumentsAllKept | ts/reader/yaml.ts:8-12 | a stream of CRDs comes back whole |
| YamlReader.CrdDocumentsNoneKept | ts/reader/yaml.ts:8-12 | the result is empty iff no document is a CRD |
| YamlReader.NonObjectsRejected | ts/reader/yaml.ts:19-25 | null, scalars and arrays are rejected, and so is a `v1beta1` CRD |
| YamlReader.MinimalCrdAccepted | ts/reader/yaml.ts:17-27 | an object with the v1 `apiVersion` and CRD `kind` is accepted, whatever keys follow |

## Left out

- I/O and the CLI: reading files, writing output, the command line (ts/cli/index.ts) and the build scripts are not part of this model.
- Foreign libraries are uninterpreted parameters:
  - YAML loading (`loadAll`);
  - `yaml.dump` with the writer's fixed options;
  - `JSON.stringify`;
  - the markdown parser;
  - the serializer with its GFM table and footnote extensions.
  - Character escaping by the serializer is therefore not modelled.
- The clock (`new Date()`) is a parameter of `Converter.ConvertCRDsToDocuments`.
- Numbers are unbounded integers. Floating-point bounds and examples are not modelled.
- `String(n)` is modelled for integers only.
- `JsStrings.ToLowerAscii`: `toLowerCase` is modelled for ASCII letters only. Other letters keep their case.
- String lengths count code points, not UTF-16 code units. The 60-character truncation therefore differs for text outside the Basic Multilingual Plane.
- `MarkdownDocument.SortByKindSpec`: `localeCompare` is modelled as code-point lexicographic order.
  - The permutation and ordering properties hold for that order.
  - Locale collation (case-insensitive first pass, accents) is not modelled.
  - `Array.prototype.sort`'s stability and algorithm are modelled as an insertion sort with no loop of its own.
- The `doc as CustomResourceDefinition` cast is only a type assertion in the source. The reader returns the accepted documents as parsed values; decoding them into the `Crd` records is not modelled.
- An absent `properties` or `required` is treated as the empty one. The source cannot tell them apart.
- `addFieldSection` and `addConstraintsToList` take an optional footnote map. Every caller in the source passes one, so the model always has it.
- The required cell holds the three characters U+00E2 U+0153 U+201C, exactly as spelled in ts/writer/markdown.ts:698. This is the check mark U+2713 mis-decoded as Windows-1252; the model keeps the source's text.
- Pushes into the caller's `children` and `fieldInfoList` arrays are modelled as returned sequences that the caller appends.
- `Converter.FieldType`: its own ensures leave out the item type of an array and the combinator joins. Both cases mention `FieldType` of a sub-schema, and on the function itself that would keep unfolding; `Converter.FieldTypeResolution` states them for every schema.
- `JsStrings.JoinWith`: its own ensures cover only zero and one part. Joins of two or more parts are stated by `JsStrings.JoinWithLast`, `JsStrings.JoinWithLength` and `JsStrings.JoinWithSeparatorCount`.
- `Converter.RemoveFirstAt`: the source filters out the found rule by object identity (`rule !== immutableRule`). Rules are values here, so the model removes only the found rule, the first one equal to it.
  - Without YAML aliases the two agree: no earlier rule is an immutability rule, and every rule is a distinct object.
  - With aliases they differ. js-yaml returns the same object for every alias of a node. So in `[&r {rule: "self == oldSelf"}, *r]` the source drops both entries and renders no validation rule, while the model keeps the second copy as a validation rule.
  - Object identity and aliasing are not modelled.
- `MarkdownFields.NumericItems` and `MarkdownFields.ValidationItems`: the ensures state only the item count. The exact items are stated by the methods that build them and by `MarkdownFields.ConstraintCount`.
