/** The CRD-to-document converter (ts/models/converter.ts): type resolution,
    the schema walker that flattens a schema tree into dotted-path field
    descriptors, the field normaliser, and the assembly of one documentation
    record per CRD. */
module Converter {
  import opened JsValues
  import opened JsStrings
  import opened Crd
  import opened Document
  import opened SeqFacts

  // ---------------------------------------------------------------------
  // Type resolution (getFieldType)
  // ---------------------------------------------------------------------

  /** The type string of a schema node. `type` wins; an array with `items`
      renders as the item type followed by `[]`. Without a (non-empty)
      `type`, the first present combinator decides: `oneOf` and `anyOf`
      join their members' types with " | ", `allOf` with " & ". With none
      of the four, the type is "any". */
  function FieldType(s: Schema): (r: string)
    ensures TruthyString(s.typ) && !(s.typ.value == "array" && s.items.Some?) ==> r == s.typ.value
    ensures s.typ == Some("array") && s.items.Some? ==> |r| >= 2 && r[|r| - 2..] == "[]"
    ensures s.typ == Some("array") && s.items.None? ==> r == "array"
    ensures !TruthyString(s.typ) && s.oneOf.Absent? && s.anyOf.Absent? && s.allOf.Absent? ==> r == "any"
    decreases s
  {
    if TruthyString(s.typ) then
      if s.typ.value == "array" && s.items.Some? then FieldType(s.items.value) + "[]"
      else s.typ.value
    else if s.oneOf.Listed? then JoinWith(MemberTypes(s.oneOf), " | ")
    else if s.anyOf.Listed? then JoinWith(MemberTypes(s.anyOf), " | ")
    else if s.allOf.Listed? then JoinWith(MemberTypes(s.allOf), " & ")
    else "any"
  }

  /** The resolved type of every member of a combinator, in order. */
  function MemberTypes(l: SchemaList): (ts: seq<string>)
    requires l.Listed?
    ensures |ts| == |l.schemas|
    ensures forall i | 0 <= i < |ts| :: ts[i] == FieldType(l.schemas[i])
    decreases l
  {
    seq(|l.schemas|, i requires 0 <= i < |l.schemas| => FieldType(l.schemas[i]))
  }

  /** The item type of an array and the member types of a combinator, for
      every schema: an array with `items` is its item type then `[]`; the
      first present combinator joins its members' types with " | " (`oneOf`,
      `anyOf`) or " & " (`allOf`). */
  lemma FieldTypeResolution(s: Schema)
    ensures s.typ == Some("array") && s.items.Some? ==> FieldType(s) == FieldType(s.items.value) + "[]"
    ensures !TruthyString(s.typ) && s.oneOf.Listed? ==> FieldType(s) == JoinWith(MemberTypes(s.oneOf), " | ")
    ensures !TruthyString(s.typ) && s.oneOf.Absent? && s.anyOf.Listed? ==>
              FieldType(s) == JoinWith(MemberTypes(s.anyOf), " | ")
    ensures !TruthyString(s.typ) && s.oneOf.Absent? && s.anyOf.Absent? && s.allOf.Listed? ==>
              FieldType(s) == JoinWith(MemberTypes(s.allOf), " & ")
  {
  }

  /** A present `type` decides alone: the combinators are never looked at. */
  lemma TypeShadowsCombinators(s: Schema, oneOf: SchemaList, anyOf: SchemaList, allOf: SchemaList)
    requires TruthyString(s.typ)
    ensures FieldType(s.(oneOf := oneOf, anyOf := anyOf, allOf := allOf)) == FieldType(s)
  {
  }

  /** Without `type`, a present `oneOf` decides alone. */
  lemma OneOfShadowsAnyOfAndAllOf(s: Schema, anyOf: SchemaList, allOf: SchemaList)
    requires !TruthyString(s.typ) && s.oneOf.Listed?
    ensures FieldType(s.(anyOf := anyOf, allOf := allOf)) == FieldType(s)
  {
  }

  /** Without `type` and `oneOf`, a present `anyOf` decides before `allOf`. */
  lemma AnyOfShadowsAllOf(s: Schema, allOf: SchemaList)
    requires !TruthyString(s.typ) && s.oneOf.Absent? && s.anyOf.Listed?
    ensures FieldType(s.(allOf := allOf)) == FieldType(s)
  {
  }

  /** A schema node with no keyword set: the starting point of the examples. */
  function EmptySchema(): Schema {
    Schema(None, None, [], [], None, None, None, None, None, None, None, None, None, None,
           None, None, None, None, Absent, Absent, Absent, None)
  }

  function TypedSchema(t: string): Schema {
    EmptySchema().(typ := Some(t))
  }

  /** Type strings for plain and array nodes, as the converter's tests
      expect them. */
  lemma FieldTypeExamples()
    ensures FieldType(TypedSchema("array").(items := Some(TypedSchema("string")))) == "string[]"
    ensures FieldType(TypedSchema("array")) == "array"
    ensures FieldType(EmptySchema()) == "any"
  {
  }

  /** `oneOf` members joined with " | ", as the converter's tests expect. */
  lemma OneOfTypeExample()
    ensures FieldType(EmptySchema().(oneOf := Listed([TypedSchema("string"), TypedSchema("integer")])))
            == "string | integer"
  {
    assert MemberTypes(Listed([TypedSchema("string"), TypedSchema("integer")])) == ["string", "integer"];
  }

  /** `allOf` members joined with " & ". */
  lemma AllOfTypeExample()
    ensures FieldType(EmptySchema().(allOf := Listed([TypedSchema("a"), TypedSchema("b")]))) == "a & b"
  {
    assert MemberTypes(Listed([TypedSchema("a"), TypedSchema("b")])) == ["a", "b"];
  }

  // ---------------------------------------------------------------------
  // Field descriptors (createFieldInfo, assignFieldProperties)
  // ---------------------------------------------------------------------

  /** `basePath ? basePath + "." + name : name` */
  function JoinPath(basePath: string, name: string): string {
    if basePath != "" then basePath + "." + name else name
  }

  /** `target.x = source.x` under `if (source.x !== undefined)`. */
  function Override<T>(x: Option<T>, fallback: Option<T>): Option<T> {
    if x.Some? then x else fallback
  }

  /** `target.x = source.x` under `if (source.x)`, for strings. */
  function OverrideTruthy(x: Option<string>, fallback: Option<string>): Option<string> {
    if TruthyString(x) then x else fallback
  }

  /** Copies the schema's optional attributes onto a descriptor: description,
      format and pattern only when non-empty, the validation list and `enum`
      whenever present, everything else whenever defined. */
  function AssignFieldProperties(info: FieldInfo, s: Schema): (r: FieldInfo)
    ensures r.path == info.path && r.fieldType == info.fieldType && r.required == info.required
  {
    info.(
      description := OverrideTruthy(s.description, info.description),
      validation := Override(s.validations, info.validation),
      example := Override(s.example, info.example),
      enumValues := Override(s.enumValues, info.enumValues),
      format := OverrideTruthy(s.format, info.format),
      pattern := OverrideTruthy(s.pattern, info.pattern),
      minimum := Override(s.minimum, info.minimum),
      maximum := Override(s.maximum, info.maximum),
      minLength := Override(s.minLength, info.minLength),
      maxLength := Override(s.maxLength, info.maxLength),
      minItems := Override(s.minItems, info.minItems),
      maxItems := Override(s.maxItems, info.maxItems),
      uniqueItems := Override(s.uniqueItems, info.uniqueItems),
      defaultValue := Override(s.defaultValue, info.defaultValue),
      nullable := Override(s.nullable, info.nullable))
  }

  /** createFieldInfo: the descriptor of one schema node. */
  function CreateFieldInfo(path: string, s: Schema, required: bool): (f: FieldInfo)
    ensures f.path == path && f.fieldType == FieldType(s) && f.required == required
  {
    var bare := FieldInfo(path, FieldType(s), None, required, None, None, None, None, None,
                          None, None, None, None, None, None, None, None, None);
    AssignFieldProperties(bare, s)
  }

  /** Assigning the same schema twice changes nothing the second time. */
  lemma AssignFieldPropertiesIdempotent(info: FieldInfo, s: Schema)
    ensures AssignFieldProperties(AssignFieldProperties(info, s), s) == AssignFieldProperties(info, s)
  {
  }

  /** A descriptor holds the path, the resolved type and the requiredness
      passed in, plus every attribute the schema defines; an attribute the
      schema lacks (or, for description, format and pattern, leaves empty)
      stays absent. */
  lemma CreateFieldInfoContents(path: string, s: Schema, required: bool)
    ensures var f := CreateFieldInfo(path, s, required);
            && f.path == path && f.fieldType == FieldType(s) && f.required == required
            && f.description == KeepTruthy(s.description)
            && f.format == KeepTruthy(s.format) && f.pattern == KeepTruthy(s.pattern)
            && f.validation == s.validations && f.example == s.example && f.enumValues == s.enumValues
            && f.minimum == s.minimum && f.maximum == s.maximum
            && f.minLength == s.minLength && f.maxLength == s.maxLength
            && f.minItems == s.minItems && f.maxItems == s.maxItems
            && f.uniqueItems == s.uniqueItems && f.defaultValue == s.defaultValue && f.nullable == s.nullable
  {
  }

  // ---------------------------------------------------------------------
  // The schema walker (extractFieldsFromSchema, extractNestedFields)
  // ---------------------------------------------------------------------

  /** `type === "object" && properties` */
  predicate IsObjectWithProperties(s: Schema) {
    s.typ == Some("object") && s.properties != []
  }

  /** `type === "array" && items && items.type === "object" && items.properties` */
  predicate IsArrayOfObjects(s: Schema) {
    s.typ == Some("array") && s.items.Some? && IsObjectWithProperties(s.items.value)
  }

  /** The descriptors of properties `i..j` of `s` (`j` excluded), each
      followed by its own nested descriptors. Requiredness is read from
      `s.required` only. */
  function FlattenRange(s: Schema, basePath: string, i: nat, j: nat): (fields: seq<FieldInfo>)
    requires i <= j <= |s.properties|
    ensures |fields| >= j - i
    decreases s, j - i, 1
  {
    if i == j then [] else PropertyFields(s, basePath, i) + FlattenRange(s, basePath, i + 1, j)
  }

  /** Property `i`'s own descriptor followed by its nested descriptors. */
  function PropertyFields(s: Schema, basePath: string, i: nat): (fields: seq<FieldInfo>)
    requires i < |s.properties|
    ensures |fields| >= 1
    decreases s, 0, 0
  {
    var p := s.properties[i];
    var fieldPath := JoinPath(basePath, p.name);
    [CreateFieldInfo(fieldPath, p.schema, p.name in s.required)] + NestedFields(p.schema, fieldPath)
  }

  /** What a property contributes below itself: the fields of an object with
      properties, or those of an array's object items under the array's own
      path (no `items` segment); nothing otherwise. */
  function NestedFields(child: Schema, fieldPath: string): seq<FieldInfo>
    decreases child, |child.properties| + 1, 0
  {
    (if IsObjectWithProperties(child) then FlattenRange(child, fieldPath, 0, |child.properties|) else [])
    + (if IsArrayOfObjects(child) then FlattenRange(child.items.value, fieldPath, 0, |child.items.value.properties|) else [])
  }

  /** The pre-order list of descriptors below `s`, rooted at `basePath`. */
  function Flatten(s: Schema, basePath: string): (fields: seq<FieldInfo>)
    ensures |fields| >= |s.properties|
    ensures s.properties == [] ==> fields == []
  {
    FlattenRange(s, basePath, 0, |s.properties|)
  }

  /** extractFieldsFromSchema: a loop over the properties that pushes each
      descriptor and then the nested ones. */
  method ExtractFieldsFromSchema(s: Schema, basePath: string) returns (fields: seq<FieldInfo>)
    ensures fields == Flatten(s, basePath)
    decreases s, 0
  {
    fields := [];
    var requiredFields := s.required;
    var i := 0;
    while i < |s.properties|
      invariant 0 <= i <= |s.properties|
      invariant fields == FlattenRange(s, basePath, 0, i)
    {
      var p := s.properties[i];
      var fieldPath := JoinPath(basePath, p.name);
      var isFieldRequired := p.name in requiredFields;
      var info := CreateFieldInfo(fieldPath, p.schema, isFieldRequired);
      var nested := ExtractNestedFields(p.schema, fieldPath);
      assert PropertyFields(s, basePath, i) == [info] + nested;
      FlattenRangeExtend(s, basePath, 0, i);
      fields := fields + ([info] + nested);
      i := i + 1;
    }
  }

  /** The range splits at any point between its ends. */
  lemma {:induction false} FlattenRangeSplit(s: Schema, basePath: string, i: nat, k: nat, j: nat)
    requires i <= k <= j <= |s.properties|
    ensures FlattenRange(s, basePath, i, j) == FlattenRange(s, basePath, i, k) + FlattenRange(s, basePath, k, j)
    decreases k - i, 1
  {
    if i == k {
      assert FlattenRange(s, basePath, i, i) == [];
      EmptyPrefix(FlattenRange(s, basePath, i, j));
    } else {
      FlattenRangeSplitFirst(s, basePath, i, k, j);
    }
  }

  /** The split of a range whose front part is not empty: property `i`
      heads both the whole and the front. */
  lemma {:induction false} FlattenRangeSplitFirst(s: Schema, basePath: string, i: nat, k: nat, j: nat)
    requires i < k <= j <= |s.properties|
    ensures FlattenRange(s, basePath, i, j) == FlattenRange(s, basePath, i, k) + FlattenRange(s, basePath, k, j)
    decreases k - i, 0
  {
    var here := PropertyFields(s, basePath, i);
    assert FlattenRange(s, basePath, i, j) == here + FlattenRange(s, basePath, i + 1, j);
    assert FlattenRange(s, basePath, i, k) == here + FlattenRange(s, basePath, i + 1, k);
    FlattenRangeSplit(s, basePath, i + 1, k, j);
    Regroup(here, FlattenRange(s, basePath, i + 1, k), FlattenRange(s, basePath, k, j));
  }

  /** One more property at the end of the range: what a turn of the
      property loop appends. */
  lemma FlattenRangeExtend(s: Schema, basePath: string, i: nat, j: nat)
    requires i <= j < |s.properties|
    ensures FlattenRange(s, basePath, i, j + 1) == FlattenRange(s, basePath, i, j) + PropertyFields(s, basePath, j)
  {
    FlattenRangeSplit(s, basePath, i, j, j + 1);
    assert FlattenRange(s, basePath, j, j + 1) == PropertyFields(s, basePath, j) + FlattenRange(s, basePath, j + 1, j + 1);
    assert FlattenRange(s, basePath, j + 1, j + 1) == [];
  }

  /** extractNestedFields */
  method ExtractNestedFields(child: Schema, fieldPath: string) returns (nested: seq<FieldInfo>)
    ensures nested == NestedFields(child, fieldPath)
    decreases child, 1
  {
    nested := [];
    if IsObjectWithProperties(child) {
      var fromObject := ExtractFieldsFromSchema(child, fieldPath);
      nested := fromObject;
    }
    if IsArrayOfObjects(child) {
      var fromItems := ExtractFieldsFromSchema(child.items.value, fieldPath);
      nested := nested + fromItems;
    }
    assert nested == (if IsObjectWithProperties(child) then Flatten(child, fieldPath) else [])
                     + (if IsArrayOfObjects(child) then Flatten(child.items.value, fieldPath) else []);
  }

  /** `path` starts with `base` followed by a dot. */
  predicate Under(path: string, base: string) {
    |path| > |base| && path[..|base| + 1] == base + "."
  }

  /** Every descriptor in `fields` lies under `base`. */
  predicate AllUnder(fields: seq<FieldInfo>, base: string) {
    forall i | 0 <= i < |fields| :: Under(fields[i].path, base)
  }

  lemma AllUnderAppend(a: seq<FieldInfo>, b: seq<FieldInfo>, base: string)
    requires AllUnder(a, base) && AllUnder(b, base)
    ensures AllUnder(a + b, base)
  {
    forall i | 0 <= i < |a + b| ensures Under((a + b)[i].path, base) {
      if i >= |a| {
        assert (a + b)[i] == b[i - |a|];
      }
    }
  }

  /** A path under `base.name` is under `base`. */
  lemma UnderParent(path: string, base: string, name: string)
    requires base != "" && Under(path, JoinPath(base, name))
    ensures Under(path, base)
  {
    var fieldPath := base + "." + name;
    assert path[..|base| + 1] == path[..|fieldPath| + 1][..|base| + 1];
    assert (fieldPath + ".")[..|base| + 1] == base + ".";
  }

  lemma AllUnderParent(fields: seq<FieldInfo>, base: string, name: string)
    requires base != "" && AllUnder(fields, JoinPath(base, name))
    ensures AllUnder(fields, base)
  {
    forall i | 0 <= i < |fields| ensures Under(fields[i].path, base) {
      UnderParent(fields[i].path, base, name);
    }
  }

  /** Every descriptor below a non-empty base path lies under `basePath.`. */
  lemma {:induction false} FlattenRangeUnderBase(s: Schema, basePath: string, i: nat, j: nat)
    requires i <= j <= |s.properties| && basePath != ""
    ensures AllUnder(FlattenRange(s, basePath, i, j), basePath)
    decreases s, j - i
  {
    if i < j {
      var p := s.properties[i];
      var fieldPath := JoinPath(basePath, p.name);
      var info := CreateFieldInfo(fieldPath, p.schema, p.name in s.required);
      var nested := NestedFields(p.schema, fieldPath);
      assert FlattenRange(s, basePath, i, j) == PropertyFields(s, basePath, i) + FlattenRange(s, basePath, i + 1, j);
      assert PropertyFields(s, basePath, i) == [info] + nested;
      assert info.path == fieldPath;
      assert Under(fieldPath, basePath) by {
        assert fieldPath[..|basePath| + 1] == basePath + ".";
      }
      NestedUnderPath(p.schema, fieldPath);
      AllUnderParent(nested, basePath, p.name);
      FlattenRangeUnderBase(s, basePath, i + 1, j);
      AllUnderAppend([info], nested, basePath);
      AllUnderAppend([info] + nested, FlattenRange(s, basePath, i + 1, j), basePath);
    }
  }

  /** Nested descriptors lie under the property's own path. */
  lemma {:induction false} NestedUnderPath(child: Schema, fieldPath: string)
    requires fieldPath != ""
    ensures AllUnder(NestedFields(child, fieldPath), fieldPath)
    decreases child, |child.properties| + 1
  {
    var fromObject := if IsObjectWithProperties(child) then FlattenRange(child, fieldPath, 0, |child.properties|) else [];
    var fromItems := if IsArrayOfObjects(child) then FlattenRange(child.items.value, fieldPath, 0, |child.items.value.properties|) else [];
    if IsObjectWithProperties(child) {
      FlattenRangeUnderBase(child, fieldPath, 0, |child.properties|);
    }
    if IsArrayOfObjects(child) {
      FlattenRangeUnderBase(child.items.value, fieldPath, 0, |child.items.value.properties|);
    }
    AllUnderAppend(fromObject, fromItems, fieldPath);
  }

  /** Rooted at "spec" (or "status"), every path starts with "spec." and so
      has at least two dot-separated segments: the root itself is never
      emitted. */
  lemma RootIsNotEmitted(s: Schema, root: string)
    requires root != "" && '.' !in root
    ensures forall f | f in Flatten(s, root) :: f.path != root && SplitCount(f.path, '.') >= 2
  {
    var fields := Flatten(s, root);
    FlattenRangeUnderBase(s, root, 0, |s.properties|);
    forall f | f in fields
      ensures f.path != root && SplitCount(f.path, '.') >= 2
    {
      var i :| 0 <= i < |fields| && fields[i] == f;
      assert Under(f.path, root);
      var head := f.path[..|root| + 1];
      assert f.path == head + f.path[|root| + 1..];
      CountCharAppend(head, f.path[|root| + 1..], '.');
      CountCharAppend(root, ".", '.');
      assert CountChar(".", '.') == 1;
    }
  }

  /** Pre-order: property `i`'s own descriptor comes after those of all
      earlier properties (at least one each) and is followed at once by all
      of its nested descriptors and then by the later properties. The
      entry's `required` flag is whether the immediate parent `s` lists the
      name. */
  lemma FlattenPreOrder(s: Schema, basePath: string, i: nat)
    requires i < |s.properties|
    ensures var p := s.properties[i];
            var fieldPath := JoinPath(basePath, p.name);
            var before := FlattenRange(s, basePath, 0, i);
            && |before| >= i
            && Flatten(s, basePath) == before + [CreateFieldInfo(fieldPath, p.schema, p.name in s.required)]
                                       + NestedFields(p.schema, fieldPath) + FlattenRange(s, basePath, i + 1, |s.properties|)
  {
    var n := |s.properties|;
    FlattenRangeSplit(s, basePath, 0, i, n);
    var p := s.properties[i];
    var fieldPath := JoinPath(basePath, p.name);
    var info := CreateFieldInfo(fieldPath, p.schema, p.name in s.required);
    var nested := NestedFields(p.schema, fieldPath);
    assert FlattenRange(s, basePath, i, n) == PropertyFields(s, basePath, i) + FlattenRange(s, basePath, i + 1, n);
    assert PropertyFields(s, basePath, i) == [info] + nested;
    AppendAssociative(FlattenRange(s, basePath, 0, i), [info], nested, FlattenRange(s, basePath, i + 1, n));
  }

  /** Items of an array of objects are flattened under the array's path:
      the first one is `path.<first item property>`. */
  lemma ArrayItemsUseArrayPath(child: Schema, fieldPath: string)
    requires IsArrayOfObjects(child)
    ensures var items := child.items.value;
            NestedFields(child, fieldPath) == Flatten(items, fieldPath)
            && NestedFields(child, fieldPath)[0].path == JoinPath(fieldPath, items.properties[0].name)
  {
    var items := child.items.value;
    assert FlattenRange(items, fieldPath, 0, |items.properties|)
        == PropertyFields(items, fieldPath, 0) + FlattenRange(items, fieldPath, 1, |items.properties|);
  }

  /** The converter test "handles nested object fields": requiredness comes
      from the immediate parent only. */
  lemma NestedObjectExample()
    ensures var size := TypedSchema("string");
            var klass := TypedSchema("string");
            var storage := TypedSchema("object").(
              properties := [Property("size", size), Property("class", klass)], required := ["size"]);
            var spec := TypedSchema("object").(properties := [Property("storage", storage)]);
            var fields := Flatten(spec, "spec");
            |fields| == 3
            && fields[0].path == "spec.storage" && !fields[0].required
            && fields[1].path == "spec.storage.size" && fields[1].required
            && fields[2].path == "spec.storage.class" && !fields[2].required
  {
    var size := TypedSchema("string");
    var klass := TypedSchema("string");
    var storage := TypedSchema("object").(
      properties := [Property("size", size), Property("class", klass)], required := ["size"]);
    var spec := TypedSchema("object").(properties := [Property("storage", storage)]);
    assert JoinPath("spec", "storage") == "spec.storage";
    assert JoinPath("spec.storage", "size") == "spec.storage.size";
    assert JoinPath("spec.storage", "class") == "spec.storage.class";
    assert "class" !in ["size"];
    assert NestedFields(size, "spec.storage.size") == [];
    assert NestedFields(klass, "spec.storage.class") == [];
    assert PropertyFields(storage, "spec.storage", 1) == [CreateFieldInfo("spec.storage.class", klass, false)];
    assert PropertyFields(storage, "spec.storage", 0) == [CreateFieldInfo("spec.storage.size", size, true)];
    assert FlattenRange(storage, "spec.storage", 2, 2) == [];
    assert FlattenRange(storage, "spec.storage", 1, 2)
        == [CreateFieldInfo("spec.storage.class", klass, false)];
    assert FlattenRange(storage, "spec.storage", 0, 2)
        == [CreateFieldInfo("spec.storage.size", size, true), CreateFieldInfo("spec.storage.class", klass, false)];
    assert NestedFields(storage, "spec.storage") == FlattenRange(storage, "spec.storage", 0, 2);
    assert FlattenRange(spec, "spec", 1, 1) == [];
    assert PropertyFields(spec, "spec", 0) == [CreateFieldInfo("spec.storage", storage, false)] + NestedFields(storage, "spec.storage");
  }

  // ---------------------------------------------------------------------
  // The field normaliser (convertFieldInfoToDoc, handleImmutability,
  // copyOptionalProperties)
  // ---------------------------------------------------------------------

  /** A rule marks its field immutable iff its trimmed text is exactly
      `self == oldSelf` or `oldSelf == self`. */
  predicate IsImmutabilityRule(rule: string) {
    var t := Trim(rule);
    t == SelfIsOldSelf || t == OldSelfIsSelf
  }

  const SelfIsOldSelf := "self == oldSelf"
  const OldSelfIsSelf := "oldSelf == self"

  /** `validation || []` */
  function RulesOf(info: FieldInfo): seq<ValidationRule> {
    info.validation.GetOr([])
  }

  /** `rules.find(isImmutabilityRule)`, as an index, searching from `i`. */
  function FindImmutabilityRuleFrom(rules: seq<ValidationRule>, i: nat): (k: Option<nat>)
    requires i <= |rules|
    ensures k.Some? ==> i <= k.value < |rules| && IsImmutabilityRule(rules[k.value].rule)
    decreases |rules| - i
  {
    if i == |rules| then None
    else if IsImmutabilityRule(rules[i].rule) then Some(i)
    else FindImmutabilityRuleFrom(rules, i + 1)
  }

  /** The search finds the first immutability rule from `i`, and reports
      none only when no rule from `i` on is one. */
  lemma {:induction false} FindImmutabilityRuleFirst(rules: seq<ValidationRule>, i: nat)
    requires i <= |rules|
    ensures var k := FindImmutabilityRuleFrom(rules, i);
            && (k.Some? ==> forall j | i <= j < k.value :: !IsImmutabilityRule(rules[j].rule))
            && (k.None? ==> forall j | i <= j < |rules| :: !IsImmutabilityRule(rules[j].rule))
    decreases |rules| - i
  {
    if i < |rules| && !IsImmutabilityRule(rules[i].rule) {
      var k := FindImmutabilityRuleFrom(rules, i + 1);
      FindImmutabilityRuleFirst(rules, i + 1);
      assert FindImmutabilityRuleFrom(rules, i) == k;
      var last := if k.Some? then k.value else |rules|;
      forall j | i <= j < last ensures !IsImmutabilityRule(rules[j].rule) {
        if j == i {
        } else {
          assert i + 1 <= j < last;
        }
      }
    }
  }

  function FindImmutabilityRule(rules: seq<ValidationRule>): Option<nat> {
    FindImmutabilityRuleFrom(rules, 0)
  }

  /** `rules.filter((r) => r !== target)` for a target that occurs once:
      the first occurrence is dropped. */
  function RemoveFirst(rules: seq<ValidationRule>, target: ValidationRule): seq<ValidationRule> {
    if rules == [] then []
    else if rules[0] == target then rules[1..]
    else [rules[0]] + RemoveFirst(rules[1..], target)
  }

  lemma {:induction false} RemoveFirstAt(rules: seq<ValidationRule>, k: nat)
    requires k < |rules| && forall j | 0 <= j < k :: rules[j] != rules[k]
    ensures RemoveFirst(rules, rules[k]) == rules[..k] + rules[k + 1..]
  {
    if k > 0 {
      RemoveFirstAt(rules[1..], k - 1);
      assert rules[1..][..k - 1] == rules[1..k];
      assert rules[1..][k..] == rules[k + 1..];
      assert rules[..k] == [rules[0]] + rules[1..k];
    }
  }

  /** handleImmutability: moves the first immutability rule out of the
      validation rules into `immutable`; with none, the record is unchanged. */
  function HandleImmutability(doc: FieldDocumentation, info: FieldInfo): (r: FieldDocumentation)
    ensures FindImmutabilityRule(RulesOf(info)).None? ==> r == doc
    ensures r == doc.(immutable := r.immutable, validationRules := r.validationRules)
  {
    var rules := RulesOf(info);
    match FindImmutabilityRule(rules)
    case None => doc
    case Some(k) =>
      doc.(immutable := Some(rules[k].rule), validationRules := RemoveFirst(doc.validationRules, rules[k]))
  }

  /** copyOptionalProperties: description, `enum`, format and pattern when
      truthy, the others when defined. */
  function CopyOptionalProperties(doc: FieldDocumentation, info: FieldInfo): (r: FieldDocumentation)
    ensures r.fieldPath == doc.fieldPath && r.fieldType == doc.fieldType && r.required == doc.required
    ensures r.validationRules == doc.validationRules && r.examples == doc.examples && r.immutable == doc.immutable
  {
    doc.(
      description := OverrideTruthy(info.description, doc.description),
      enumValues := Override(info.enumValues, doc.enumValues),
      format := OverrideTruthy(info.format, doc.format),
      pattern := OverrideTruthy(info.pattern, doc.pattern),
      minimum := Override(info.minimum, doc.minimum),
      maximum := Override(info.maximum, doc.maximum),
      minLength := Override(info.minLength, doc.minLength),
      maxLength := Override(info.maxLength, doc.maxLength),
      minItems := Override(info.minItems, doc.minItems),
      maxItems := Override(info.maxItems, doc.maxItems),
      uniqueItems := Override(info.uniqueItems, doc.uniqueItems),
      defaultValue := Override(info.defaultValue, doc.defaultValue),
      nullable := Override(info.nullable, doc.nullable))
  }

  /** convertFieldInfoToDoc: path, type and requiredness verbatim; `examples`
      is `[example]` only for a truthy example; optional attributes are
      copied when present and stay absent otherwise; an extracted
      `immutable` is always an immutability rule. */
  function ConvertFieldInfoToDoc(info: FieldInfo): (d: FieldDocumentation)
    ensures d.fieldPath == info.path && d.fieldType == info.fieldType && d.required == info.required
    ensures d.examples == (if info.example.Some? && Truthy(info.example.value) then [info.example.value] else [])
    ensures d.description == KeepTruthy(info.description)
    ensures d.format == KeepTruthy(info.format) && d.pattern == KeepTruthy(info.pattern)
    ensures d.enumValues == info.enumValues
    ensures d.minimum == info.minimum && d.maximum == info.maximum
    ensures d.minLength == info.minLength && d.maxLength == info.maxLength
    ensures d.minItems == info.minItems && d.maxItems == info.maxItems
    ensures d.uniqueItems == info.uniqueItems && d.defaultValue == info.defaultValue
    ensures d.nullable == info.nullable
    ensures d.immutable.Some? ==> IsImmutabilityRule(d.immutable.value)
    ensures d.immutable.None? ==> d.validationRules == RulesOf(info)
  {
    var doc := FieldDocumentation(
      info.path, info.fieldType, None, info.required, RulesOf(info),
      if info.example.Some? && Truthy(info.example.value) then [info.example.value] else [],
      None, None, None, None, None, None, None, None, None, None, None, None, None);
    CopyOptionalProperties(HandleImmutability(doc, info), info)
  }

  /** Immutability extraction: `immutable` is set iff some rule is an
      immutability rule; then it holds the raw (untrimmed) text of the first
      such rule, which alone leaves `validationRules`, the others keeping
      their order. */
  lemma ImmutabilityExtraction(info: FieldInfo)
    ensures var rules := RulesOf(info);
            var d := ConvertFieldInfoToDoc(info);
            (d.immutable.Some? <==> exists j | 0 <= j < |rules| :: IsImmutabilityRule(rules[j].rule))
            && (d.immutable.Some? ==>
                  exists k | 0 <= k < |rules| ::
                    && IsImmutabilityRule(rules[k].rule)
                    && (forall j | 0 <= j < k :: !IsImmutabilityRule(rules[j].rule))
                    && d.immutable == Some(rules[k].rule)
                    && d.validationRules == rules[..k] + rules[k + 1..])
  {
    var rules := RulesOf(info);
    var found := FindImmutabilityRule(rules);
    FindImmutabilityRuleFirst(rules, 0);
    if found.Some? {
      var k := found.value;
      RemoveFirstAt(rules, k);
      assert IsImmutabilityRule(rules[k].rule);
    }
  }

  /** The rules of the converter test "handles validation rules other than
      immutability": the immutability rule sits between two others. */
  const ReplicaRules: seq<ValidationRule> := [
    ValidationRule("self >= 1", Some("Must be at least 1")),
    ValidationRule("self == oldSelf", Some("Cannot be changed")),
    ValidationRule("self <= 100", Some("Must be at most 100"))]

  lemma ReplicaRulesSearch()
    ensures FindImmutabilityRule(ReplicaRules) == Some(1)
    ensures RemoveFirst(ReplicaRules, ReplicaRules[1]) == [ReplicaRules[0], ReplicaRules[2]]
  {
    var r := ReplicaRules;
    assert FindImmutabilityRule(r) == Some(1) by {
      assert !IsImmutabilityRule(r[0].rule) by {
        TrimmedIsIdentity(r[0].rule);
      }
      assert IsImmutabilityRule(r[1].rule) by {
        TrimmedIsIdentity(r[1].rule);
      }
      assert FindImmutabilityRuleFrom(r, 1) == Some(1);
    }
    assert RemoveFirst(r, r[1]) == [r[0], r[2]] by {
      assert r[1..] == [r[1], r[2]];
      assert [r[1], r[2]][1..] == [r[2]];
    }
  }

  /** In that test the field becomes immutable with the middle rule's text
      and keeps the other two rules in order. */
  lemma ImmutabilityExample()
    ensures var info := CreateFieldInfo("spec.replicas", TypedSchema("integer").(validations := Some(ReplicaRules)), false);
            var d := ConvertFieldInfoToDoc(info);
            d.immutable == Some("self == oldSelf") && d.validationRules == [ReplicaRules[0], ReplicaRules[2]]
  {
    ReplicaRulesSearch();
  }

  /** A string with no whitespace at either end is its own trim. */
  lemma TrimmedIsIdentity(s: string)
    requires s != [] && !IsWhitespace(s[0]) && !IsWhitespace(s[|s| - 1])
    ensures Trim(s) == s
  {
    assert TrimStart(s) == s;
    assert TrimEnd(s) == s;
  }

  // ---------------------------------------------------------------------
  // Assembly (convertCRDToAPIDoc, convertCRDsToDocuments)
  // ---------------------------------------------------------------------

  datatype ConversionError = NoStorageVersion(crdName: string) {
    /** The text of the thrown `Error`. */
    function Message(): string {
      "No storage version found for CRD " + crdName
    }
  }

  /** `versions.find((v) => v.storage)` */
  function StorageVersion(versions: seq<CRDVersion>): (r: Option<CRDVersion>)
    ensures r.None? <==> forall j | 0 <= j < |versions| :: !versions[j].storage
    ensures r.Some? ==> exists k | 0 <= k < |versions| :: versions[k] == r.value && r.value.storage
                          && forall j | 0 <= j < k :: !versions[j].storage
  {
    if versions == [] then None
    else if versions[0].storage then Some(versions[0])
    else
      var rest := StorageVersion(versions[1..]);
      assert forall j | 1 <= j < |versions| :: versions[j] == versions[1..][j - 1];
      rest
  }

  /** `properties?.[name]` (property names are unique keys) */
  function PropertyNamed(props: seq<Property>, name: string): (r: Option<Schema>)
    ensures r.None? <==> forall j | 0 <= j < |props| :: props[j].name != name
    ensures r.Some? ==> Property(name, r.value) in props
  {
    if props == [] then None
    else if props[0].name == name then Some(props[0].schema)
    else
      var rest := PropertyNamed(props[1..], name);
      assert forall j | 1 <= j < |props| :: props[j] == props[1..][j - 1];
      rest
  }

  /** The documented fields below an optional root sub-schema. */
  function FieldDocs(sub: Option<Schema>, root: string): (docs: seq<FieldDocumentation>)
    ensures sub.None? ==> docs == []
    ensures sub.Some? ==> |docs| == |Flatten(sub.value, root)|
                          && forall i | 0 <= i < |docs| :: docs[i] == ConvertFieldInfoToDoc(Flatten(sub.value, root)[i])
  {
    if sub.None? then []
    else
      var infos := Flatten(sub.value, root);
      seq(|infos|, i requires 0 <= i < |infos| => ConvertFieldInfoToDoc(infos[i]))
  }

  /** convertCRDToAPIDoc: fails iff no version is the storage version;
      otherwise documents the first storage version, whose name becomes
      `version`, with `title` and `kind` both the CRD's kind name, the
      schema description only when non-empty, and `shortNames` copied
      whenever defined. */
  function ConvertCRDToAPIDoc(crd: CustomResourceDefinition): (r: Result<APIDocumentation, ConversionError>)
    ensures r.Err? <==> StorageVersion(crd.spec.versions).None?
    ensures r.Err? ==> r.error == NoStorageVersion(crd.metadata.name)
    ensures r.Ok? ==>
              var v := StorageVersion(crd.spec.versions).value;
              var schema := v.schema;
              && r.value.title == crd.spec.names.kind
              && r.value.kind == crd.spec.names.kind
              && r.value.group == crd.spec.group
              && r.value.version == v.name
              && r.value.scope == crd.spec.scope
              && r.value.description == KeepTruthy(schema.description)
              && r.value.specFields == FieldDocs(PropertyNamed(schema.properties, "spec"), "spec")
              && r.value.statusFields == FieldDocs(PropertyNamed(schema.properties, "status"), "status")
              && r.value.metadata == Some(Metadata(crd.spec.names.shortNames, crd.spec.names.plural, crd.spec.names.singular))
  {
    match StorageVersion(crd.spec.versions)
    case None => Err(NoStorageVersion(crd.metadata.name))
    case Some(v) =>
      var schema := v.schema;
      var names := crd.spec.names;
      Ok(APIDocumentation(
        names.kind, names.kind, crd.spec.group, v.name, crd.spec.scope,
        KeepTruthy(schema.description),
        FieldDocs(PropertyNamed(schema.properties, "spec"), "spec"),
        FieldDocs(PropertyNamed(schema.properties, "status"), "status"),
        Some(Metadata(names.shortNames, names.plural, names.singular))))
  }

  /** The documented fields below a root lie under `root.`. */
  lemma FieldDocsUnderRoot(sub: Option<Schema>, root: string)
    requires root != ""
    ensures forall d | d in FieldDocs(sub, root) :: Under(d.fieldPath, root)
  {
    if sub.Some? {
      var infos := Flatten(sub.value, root);
      FlattenRangeUnderBase(sub.value, root, 0, |sub.value.properties|);
      forall d | d in FieldDocs(sub, root) ensures Under(d.fieldPath, root) {
        var i :| 0 <= i < |infos| && FieldDocs(sub, root)[i] == d;
        assert d.fieldPath == infos[i].path;
      }
    }
  }

  /** Every spec field path starts with "spec." and every status field path
      with "status.". */
  lemma FieldPathsUnderRoots(crd: CustomResourceDefinition)
    requires ConvertCRDToAPIDoc(crd).Ok?
    ensures var doc := ConvertCRDToAPIDoc(crd).value;
            && (forall f | f in doc.specFields :: Under(f.fieldPath, "spec"))
            && (forall f | f in doc.statusFields :: Under(f.fieldPath, "status"))
  {
    var schema := StorageVersion(crd.spec.versions).value.schema;
    FieldDocsUnderRoot(PropertyNamed(schema.properties, "spec"), "spec");
    FieldDocsUnderRoot(PropertyNamed(schema.properties, "status"), "status");
  }

  /** convertCRDsToDocuments: converts in input order; the first failing
      CRD aborts the whole batch with its error. `now` stands for the clock
      reading `new Date()`. */
  method ConvertCRDsToDocuments(crds: seq<CustomResourceDefinition>, sourceFiles: seq<string>, now: Timestamp)
    returns (r: Result<DocumentModel, ConversionError>)
    ensures r.Err? <==> exists i | 0 <= i < |crds| :: ConvertCRDToAPIDoc(crds[i]).Err?
    ensures r.Err? ==> exists i | 0 <= i < |crds| ::
                          && ConvertCRDToAPIDoc(crds[i]).Err?
                          && r.error == ConvertCRDToAPIDoc(crds[i]).error
                          && forall j | 0 <= j < i :: ConvertCRDToAPIDoc(crds[j]).Ok?
    ensures r.Ok? ==> && |r.value.apiDocs| == |crds|
                      && (forall i | 0 <= i < |crds| :: ConvertCRDToAPIDoc(crds[i]) == Ok(r.value.apiDocs[i]))
                      && r.value.generatedAt == now
                      && r.value.sourceFiles == sourceFiles
  {
    var apiDocs: seq<APIDocumentation> := [];
    for i := 0 to |crds|
      invariant |apiDocs| == i
      invariant forall j | 0 <= j < i :: ConvertCRDToAPIDoc(crds[j]) == Ok(apiDocs[j])
    {
      var apiDoc := ConvertCRDToAPIDoc(crds[i]);
      if apiDoc.Err? {
        return Err(apiDoc.error);
      }
      apiDocs := apiDocs + [apiDoc.value];
    }
    return Ok(DocumentModel(apiDocs, now, sourceFiles));
  }
}
