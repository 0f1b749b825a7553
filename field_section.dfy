/** The section the markdown writer emits for one field and for a list of
    fields (ts/writer/markdown.ts, addFieldsSection through
    addDefaultValueToList): a heading with the path, the parsed description,
    and one bullet list holding type, requiredness, constraints, default
    value and examples. */
module MarkdownFields {
  import opened JsValues
  import opened JsStrings
  import opened Crd
  import opened Document
  import opened MarkdownAst
  import opened MarkdownFootnotes
  import opened SeqFacts

  /** One entry of the field-information list before it becomes a list
      item: inline elements, possibly with a block. */
  type Item = seq<Node>

  // ---------------------------------------------------------------------
  // Type and requiredness (addBasicFieldInfoToList)
  // ---------------------------------------------------------------------

  function BasicFieldInfo(field: FieldDocumentation): (items: seq<Item>)
    ensures |items| == 2 && |items[0]| >= 3
    ensures items[0][..3] == [Strong([Text("Type:")]), Text(" "), InlineCode(field.fieldType)]
    ensures |items[0]| == 3 <==> !TruthyString(field.format)
    ensures TruthyString(field.format) ==> |items[0]| == 6 && items[0][4] == InlineCode(field.format.value)
    ensures items[1] == [Strong([Text("Required")])] <==> field.required
  {
    var typeNodes := [Strong([Text("Type:")]), Text(" "), InlineCode(field.fieldType)]
      + (if TruthyString(field.format) then [Text(" ("), InlineCode(field.format.value), Text(")")] else []);
    [typeNodes, [Strong([Text(if field.required then "Required" else "Optional")])]]
  }

  // ---------------------------------------------------------------------
  // Constraints (addConstraintsToList and its helpers)
  // ---------------------------------------------------------------------

  /** The "Immutable" item with its footnote reference, for a non-empty
      `immutable`. */
  function ImmutabilityItems(field: FieldDocumentation): seq<Item> {
    if TruthyString(field.immutable) then
      [[Strong([Text("Immutable")]), Text(" "), FootnoteReference(FootnoteId(field.immutable.value))]]
    else []
  }

  /** The footnote a field registers: its formula under its identifier. */
  function RegisterField(entries: seq<Footnote>, field: FieldDocumentation): seq<Footnote> {
    if TruthyString(field.immutable) then MapSet(entries, FootnoteId(field.immutable.value), field.immutable.value)
    else entries
  }

  /** addImmutabilityConstraint: pushes the item and records the footnote. */
  method AddImmutabilityConstraint(field: FieldDocumentation, footnotes: FootnotePool) returns (constraints: seq<Item>)
    requires footnotes.Valid()
    modifies footnotes
    ensures footnotes.Valid()
    ensures constraints == ImmutabilityItems(field)
    ensures footnotes.entries == RegisterField(old(footnotes.entries), field)
  {
    if !(field.immutable.Some? && field.immutable.value != "") {
      return [];
    }
    var footnoteId := "immutable_by_CEL_" + ReplaceChar(field.immutable.value, ' ', '_');
    constraints := [[Strong([Text("Immutable")]), Text(" "), FootnoteReference(footnoteId)]];
    footnotes.Set(footnoteId, field.immutable.value);
  }

  /** The numeric bounds in the order the writer lists them, with their
      labels. */
  function NumericBounds(field: FieldDocumentation): seq<(string, Option<int>)> {
    [("Min length:", field.minLength), ("Max length:", field.maxLength),
     ("Minimum:", field.minimum), ("Maximum:", field.maximum),
     ("Min items:", field.minItems), ("Max items:", field.maxItems)]
  }

  /** `caption value` with the value in decimal. */
  function NumericItem(caption: string, value: int): Item {
    [Strong([Text(caption)]), Text(" "), InlineCode(IntToString(value))]
  }

  /** One item per defined bound, in table order. */
  function NumericItems(bounds: seq<(string, Option<int>)>): (items: seq<Item>)
    ensures |items| <= |bounds|
  {
    if bounds == [] then []
    else
      var last := bounds[|bounds| - 1];
      NumericItems(bounds[..|bounds| - 1]) + (if last.1.Some? then [NumericItem(last.0, last.1.value)] else [])
  }

  /** addNumericConstraints: the loop over the bound table. */
  method AddNumericConstraints(field: FieldDocumentation) returns (constraints: seq<Item>)
    ensures constraints == NumericItems(NumericBounds(field))
  {
    var numericConstraints := NumericBounds(field);
    constraints := [];
    for i := 0 to |numericConstraints|
      invariant constraints == NumericItems(numericConstraints[..i])
    {
      var (caption, value) := numericConstraints[i];
      assert numericConstraints[..i + 1][..i] == numericConstraints[..i];
      if value.Some? {
        constraints := constraints + [[Strong([Text(caption)]), Text(" "), InlineCode(IntToString(value.value))]];
      }
    }
    assert numericConstraints[..|numericConstraints|] == numericConstraints;
  }

  /** One "Validation:" item: the message (or nothing) after the label,
      then the rule as a `cel` code block. */
  function ValidationItem(rule: ValidationRule): Item {
    [Strong([Text("Validation:")]),
     Text(if TruthyString(rule.message) then " " + rule.message.value else " "),
     Code(Some("cel"), rule.rule)]
  }

  function ValidationItems(rules: seq<ValidationRule>): (items: seq<Item>)
    ensures |items| == |rules|
  {
    if rules == [] then []
    else ValidationItems(rules[..|rules| - 1]) + [ValidationItem(rules[|rules| - 1])]
  }

  /** The allowed values as JSON text. */
  function JsonTexts(libs: Libraries, values: seq<Value>): seq<string> {
    seq(|values|, i requires 0 <= i < |values| => libs.jsonStringify(values[i]))
  }

  /** A non-empty `enum`. */
  predicate HasAllowedValues(field: FieldDocumentation) {
    field.enumValues.Some? && |field.enumValues.value| > 0
  }

  /** addOtherConstraints: unique items, pattern, allowed values, then one
      item per validation rule. */
  function OtherItems(libs: Libraries, field: FieldDocumentation): seq<Item> {
    (if field.uniqueItems == Some(true) then [[Strong([Text("Unique items:")]), Text(" Yes")]] else [])
    + (if TruthyString(field.pattern) then [PatternItem(field.pattern.value)] else [])
    + (if HasAllowedValues(field) then [AllowedValuesItem(JsonTexts(libs, field.enumValues.value))] else [])
    + ValidationItems(field.validationRules)
  }

  method AddOtherConstraints(libs: Libraries, field: FieldDocumentation) returns (constraints: seq<Item>)
    ensures constraints == OtherItems(libs, field)
  {
    constraints := [];
    if field.uniqueItems == Some(true) {
      constraints := constraints + [[Strong([Text("Unique items:")]), Text(" Yes")]];
    }
    if field.pattern.Some? && field.pattern.value != "" {
      constraints := constraints + [[Strong([Text("Pattern:")]), Code(Some("regex"), field.pattern.value)]];
    }
    if field.enumValues.Some? && |field.enumValues.value| > 0 {
      var values := JsonTexts(libs, field.enumValues.value);
      var separated := SeparateBefore(values);
      constraints := constraints + [[Strong([Text("Allowed values:")]), Text(" ")] + separated];
    }
    var validations := AddValidationRules(field.validationRules);
    constraints := constraints + validations;
  }

  /** The loop over `x-kubernetes-validations` in addOtherConstraints. */
  method AddValidationRules(rules: seq<ValidationRule>) returns (constraints: seq<Item>)
    ensures constraints == ValidationItems(rules)
  {
    constraints := [];
    for i := 0 to |rules|
      invariant constraints == ValidationItems(rules[..i])
    {
      var rule := rules[i];
      var validationContent: seq<Node>;
      if rule.message.Some? && rule.message.value != "" {
        validationContent := [Strong([Text("Validation:")]), Text(" " + rule.message.value)];
      } else {
        validationContent := [Strong([Text("Validation:")]), Text(" ")];
      }
      validationContent := validationContent + [Code(Some("cel"), rule.rule)];
      assert rules[..i + 1][..i] == rules[..i];
      assert validationContent == ValidationItem(rule);
      constraints := constraints + [validationContent];
    }
    assert rules[..|rules|] == rules;
  }

  /** All constraint items: immutability, numeric bounds, the others. */
  function ConstraintItems(libs: Libraries, field: FieldDocumentation): seq<Item> {
    ImmutabilityItems(field) + NumericItems(NumericBounds(field)) + OtherItems(libs, field)
  }

  /** The "Constraints" item, present only when some constraint is. */
  function ConstraintsSection(libs: Libraries, field: FieldDocumentation): seq<Item> {
    var constraints := ConstraintItems(libs, field);
    if |constraints| > 0 then [[Strong([Text("Constraints")]), ComplexBulletList(constraints)]] else []
  }

  /** addConstraintsToList */
  method AddConstraintsToList(libs: Libraries, field: FieldDocumentation, footnotes: FootnotePool)
    returns (items: seq<Item>)
    requires footnotes.Valid()
    modifies footnotes
    ensures footnotes.Valid()
    ensures items == ConstraintsSection(libs, field)
    ensures footnotes.entries == RegisterField(old(footnotes.entries), field)
  {
    var immutability := AddImmutabilityConstraint(field, footnotes);
    var numeric := AddNumericConstraints(field);
    var other := AddOtherConstraints(libs, field);
    var constraints := immutability + numeric + other;
    items := [];
    if |constraints| > 0 {
      var nested := BuildComplexBulletList(constraints);
      items := [[Strong([Text("Constraints")]), nested]];
    }
  }

  /** Whether the field carries any constraint the writer lists. */
  predicate HasAnyConstraint(field: FieldDocumentation) {
    || TruthyString(field.immutable)
    || field.minLength.Some? || field.maxLength.Some? || field.minimum.Some?
    || field.maximum.Some? || field.minItems.Some? || field.maxItems.Some?
    || field.uniqueItems == Some(true)
    || TruthyString(field.pattern)
    || HasAllowedValues(field)
    || |field.validationRules| > 0
  }

  function Indicator(b: bool): nat {
    if b then 1 else 0
  }

  /** One constraint item per defined bound, per present flag and per
      validation rule, so the "Constraints" item appears iff the field has
      a constraint. */
  lemma ConstraintCount(libs: Libraries, field: FieldDocumentation)
    ensures |ConstraintItems(libs, field)|
            == Indicator(TruthyString(field.immutable))
               + Indicator(field.minLength.Some?) + Indicator(field.maxLength.Some?)
               + Indicator(field.minimum.Some?) + Indicator(field.maximum.Some?)
               + Indicator(field.minItems.Some?) + Indicator(field.maxItems.Some?)
               + Indicator(field.uniqueItems == Some(true)) + Indicator(TruthyString(field.pattern))
               + Indicator(HasAllowedValues(field)) + |field.validationRules|
    ensures |ConstraintsSection(libs, field)| == 1 <==> HasAnyConstraint(field)
  {
    NumericCount(field);
    OtherCount(libs, field);
  }

  /** One numeric item per defined bound. */
  lemma NumericCount(field: FieldDocumentation)
    ensures |NumericItems(NumericBounds(field))|
            == Indicator(field.minLength.Some?) + Indicator(field.maxLength.Some?)
               + Indicator(field.minimum.Some?) + Indicator(field.maximum.Some?)
               + Indicator(field.minItems.Some?) + Indicator(field.maxItems.Some?)
  {
    var b := NumericBounds(field);
    assert |NumericItems(b)| == |NumericItems(b[..5])| + Indicator(field.maxItems.Some?);
    assert |NumericItems(b[..5])| == |NumericItems(b[..4])| + Indicator(field.minItems.Some?) by {
      assert b[..5][..4] == b[..4];
    }
    assert |NumericItems(b[..4])| == |NumericItems(b[..3])| + Indicator(field.maximum.Some?) by {
      assert b[..4][..3] == b[..3];
    }
    assert |NumericItems(b[..3])| == |NumericItems(b[..2])| + Indicator(field.minimum.Some?) by {
      assert b[..3][..2] == b[..2];
    }
    assert |NumericItems(b[..2])| == |NumericItems(b[..1])| + Indicator(field.maxLength.Some?) by {
      assert b[..2][..1] == b[..1];
    }
    assert |NumericItems(b[..1])| == Indicator(field.minLength.Some?) by {
      assert b[..1][..0] == [];
    }
  }

  lemma OtherCount(libs: Libraries, field: FieldDocumentation)
    ensures |OtherItems(libs, field)|
            == Indicator(field.uniqueItems == Some(true)) + Indicator(TruthyString(field.pattern))
               + Indicator(HasAllowedValues(field)) + |field.validationRules|
  {
  }

  // ---------------------------------------------------------------------
  // Default value and examples
  // ---------------------------------------------------------------------

  /** A value rendered through YAML: the caption with a colon and inline
      code when the trimmed YAML is one line, otherwise the bare caption and
      a `yaml` code block. */
  function ValueItem(libs: Libraries, caption: string, v: Value): (item: Item)
    ensures var dumped := Trim(libs.yamlDump(v));
            && ('\n' !in dumped ==> |item| == 3 && item[0] == Strong([Text(caption + ":")]) && item[2] == InlineCode(dumped))
            && ('\n' in dumped ==> item == [Strong([Text(caption)]), Code(Some("yaml"), dumped)])
  {
    var yamlString := Trim(libs.yamlDump(v));
    if '\n' !in yamlString then [Strong([Text(caption + ":")]), Text(" "), InlineCode(yamlString)]
    else [Strong([Text(caption)]), Code(Some("yaml"), yamlString)]
  }

  /** addDefaultValueToList */
  function DefaultValueItems(libs: Libraries, field: FieldDocumentation): (items: seq<Item>)
    ensures |items| <= 1
    ensures |items| == 1 <==> field.defaultValue.Some?
  {
    if field.defaultValue.Some? then [ValueItem(libs, "Default value", field.defaultValue.value)] else []
  }

  /** addExamplesToList: one item per example. */
  function ExampleItems(libs: Libraries, examples: seq<Value>): seq<Item> {
    seq(|examples|, i requires 0 <= i < |examples| => ValueItem(libs, "Example", examples[i]))
  }

  method AddExamplesToList(libs: Libraries, field: FieldDocumentation) returns (items: seq<Item>)
    ensures items == ExampleItems(libs, field.examples)
  {
    items := [];
    var examples := field.examples;
    for i := 0 to |examples|
      invariant |items| == i
      invariant forall j | 0 <= j < i :: items[j] == ValueItem(libs, "Example", examples[j])
    {
      var yamlString := Trim(libs.yamlDump(examples[i]));
      var isSingleLine := '\n' !in yamlString;
      var exampleItem: seq<Node>;
      if isSingleLine {
        exampleItem := [Strong([Text("Example:")]), Text(" "), InlineCode(yamlString)];
      } else {
        exampleItem := [Strong([Text("Example")]), Code(Some("yaml"), yamlString)];
      }
      assert "Example" + ":" == "Example:";
      assert exampleItem == ValueItem(libs, "Example", examples[i]);
      items := items + [exampleItem];
    }
  }

  // ---------------------------------------------------------------------
  // One field, and a list of fields
  // ---------------------------------------------------------------------

  /** The field-information list, in the writer's order. */
  function FieldInfoItems(libs: Libraries, field: FieldDocumentation): seq<Item> {
    BasicFieldInfo(field) + ConstraintsSection(libs, field) + DefaultValueItems(libs, field)
      + ExampleItems(libs, field.examples)
  }

  /** A description, parsed as markdown when non-empty. */
  function DescriptionNodes(libs: Libraries, description: Option<string>): seq<Node> {
    if TruthyString(description) then libs.fromMarkdown(description.value) else []
  }

  /** addFieldSection: heading, description, field-information list. */
  function FieldSectionNodes(libs: Libraries, field: FieldDocumentation, headingLevel: int): seq<Node> {
    [HeadingNode(headingLevel, [InlineCode(field.fieldPath)])]
      + DescriptionNodes(libs, field.description)
      + [ComplexBulletList(FieldInfoItems(libs, field))]
  }

  method AddFieldSection(libs: Libraries, field: FieldDocumentation, headingLevel: int, footnotes: FootnotePool)
    returns (children: seq<Node>)
    requires footnotes.Valid()
    modifies footnotes
    ensures footnotes.Valid()
    ensures children == FieldSectionNodes(libs, field, headingLevel)
    ensures footnotes.entries == RegisterField(old(footnotes.entries), field)
  {
    children := [HeadingNode(headingLevel, [InlineCode(field.fieldPath)])];
    if field.description.Some? && field.description.value != "" {
      children := children + libs.fromMarkdown(field.description.value);
    }
    assert children == [HeadingNode(headingLevel, [InlineCode(field.fieldPath)])] + DescriptionNodes(libs, field.description);
    var fieldInfoList := BasicFieldInfo(field);
    var constraints := AddConstraintsToList(libs, field, footnotes);
    fieldInfoList := fieldInfoList + constraints;
    fieldInfoList := fieldInfoList + DefaultValueItems(libs, field);
    var examples := AddExamplesToList(libs, field);
    fieldInfoList := fieldInfoList + examples;
    assert fieldInfoList == FieldInfoItems(libs, field);
    var list := BuildComplexBulletList(fieldInfoList);
    children := children + [list];
  }

  /** The sections of several fields, one after the other. */
  function AllFieldSections(libs: Libraries, fields: seq<FieldDocumentation>, headingLevel: int): seq<Node> {
    if fields == [] then []
    else
      AllFieldSections(libs, fields[..|fields| - 1], headingLevel)
        + FieldSectionNodes(libs, fields[|fields| - 1], headingLevel)
  }

  /** The footnotes of several fields, registered in order. */
  function RegisterFields(entries: seq<Footnote>, fields: seq<FieldDocumentation>): seq<Footnote> {
    if fields == [] then entries
    else RegisterField(RegisterFields(entries, fields[..|fields| - 1]), fields[|fields| - 1])
  }

  /** `No <section> fields defined for this resource.` */
  function Placeholder(sectionName: string): Node {
    Paragraph([Text("No " + ToLowerAscii(sectionName) + " fields defined for this resource.")])
  }

  /** addFieldsSection: the section heading one level below the base, then
      every field one level further down, or the placeholder. */
  function FieldsSectionNodes(libs: Libraries, fields: seq<FieldDocumentation>, sectionName: string, baseHeadingLevel: int): seq<Node> {
    [HeadingText(baseHeadingLevel + 1, sectionName)]
      + (if |fields| > 0 then AllFieldSections(libs, fields, baseHeadingLevel + 2) else [Placeholder(sectionName)])
  }

  method AddFieldsSection(libs: Libraries, fields: seq<FieldDocumentation>, sectionName: string,
                          baseHeadingLevel: int, footnotes: FootnotePool)
    returns (children: seq<Node>)
    requires footnotes.Valid()
    modifies footnotes
    ensures footnotes.Valid()
    ensures children == FieldsSectionNodes(libs, fields, sectionName, baseHeadingLevel)
    ensures footnotes.entries == RegisterFields(old(footnotes.entries), fields)
  {
    children := [HeadingText(baseHeadingLevel + 1, sectionName)];
    if |fields| > 0 {
      for i := 0 to |fields|
        invariant footnotes.Valid()
        invariant children == [HeadingText(baseHeadingLevel + 1, sectionName)] + AllFieldSections(libs, fields[..i], baseHeadingLevel + 2)
        invariant footnotes.entries == RegisterFields(old(footnotes.entries), fields[..i])
      {
        ghost var registered := footnotes.entries;
        var section := AddFieldSection(libs, fields[i], baseHeadingLevel + 2, footnotes);
        assert fields[..i + 1][..i] == fields[..i];
        assert AllFieldSections(libs, fields[..i + 1], baseHeadingLevel + 2)
            == AllFieldSections(libs, fields[..i], baseHeadingLevel + 2) + section;
        assert footnotes.entries == RegisterFields(old(footnotes.entries), fields[..i + 1]);
        Regroup([HeadingText(baseHeadingLevel + 1, sectionName)],
          AllFieldSections(libs, fields[..i], baseHeadingLevel + 2), section);
        children := children + section;
      }
      assert fields[..|fields|] == fields;
    } else {
      children := children + [Placeholder(sectionName)];
    }
  }

  /** Every field gets a heading with its path, one level below the
      section heading, in the fields' order; without fields the placeholder
      stands in. */
  lemma {:induction false} FieldHeadingsInOrder(libs: Libraries, fields: seq<FieldDocumentation>, headingLevel: int)
    ensures |AllFieldSections(libs, fields, headingLevel)| >= 2 * |fields|
    ensures forall i | 0 <= i < |fields| ::
              HeadingNode(headingLevel, [InlineCode(fields[i].fieldPath)]) in AllFieldSections(libs, fields, headingLevel)
  {
    if fields != [] {
      var front := fields[..|fields| - 1];
      FieldHeadingsInOrder(libs, front, headingLevel);
      var heading := HeadingNode(headingLevel, [InlineCode(fields[|fields| - 1].fieldPath)]);
      var last := FieldSectionNodes(libs, fields[|fields| - 1], headingLevel);
      SectionStartsWithHeading(libs, fields[|fields| - 1], headingLevel);
      var earlier := AllFieldSections(libs, front, headingLevel);
      assert AllFieldSections(libs, fields, headingLevel) == earlier + last;
      InRight(heading, earlier, last);
      forall i | 0 <= i < |fields|
        ensures HeadingNode(headingLevel, [InlineCode(fields[i].fieldPath)]) in earlier + last
      {
        if i < |front| {
          assert front[i] == fields[i];
          InLeft(HeadingNode(headingLevel, [InlineCode(fields[i].fieldPath)]), earlier, last);
        } else {
          assert i == |fields| - 1;
        }
      }
    }
  }

  /** A field's section opens with its heading and holds at least the
      heading and the field's bullet list. */
  lemma SectionStartsWithHeading(libs: Libraries, field: FieldDocumentation, headingLevel: int)
    ensures |FieldSectionNodes(libs, field, headingLevel)| >= 2
    ensures FieldSectionNodes(libs, field, headingLevel)[0] == HeadingNode(headingLevel, [InlineCode(field.fieldPath)])
  {
  }

  /** Whether the field registers a footnote under `id`. */
  predicate RegistersId(field: FieldDocumentation, id: string) {
    TruthyString(field.immutable) && FootnoteId(field.immutable.value) == id
  }

  /** The registered footnote identifiers are exactly the earlier ones plus
      those of the fields with a non-empty `immutable`. */
  lemma {:induction false} RegisteredIds(entries: seq<Footnote>, fields: seq<FieldDocumentation>)
    requires DistinctIds(entries)
    ensures DistinctIds(RegisterFields(entries, fields))
    ensures forall id :: Lookup(RegisterFields(entries, fields), id).Some? <==>
              (Lookup(entries, id).Some? || exists i | 0 <= i < |fields| :: RegistersId(fields[i], id))
  {
    if fields != [] {
      var front := fields[..|fields| - 1];
      var last := fields[|fields| - 1];
      RegisteredIds(entries, front);
      var mid := RegisterFields(entries, front);
      if TruthyString(last.immutable) {
        MapSetSpec(mid, FootnoteId(last.immutable.value), last.immutable.value);
      }
      forall id
        ensures Lookup(RegisterFields(entries, fields), id).Some? <==>
                (Lookup(entries, id).Some? || exists i | 0 <= i < |fields| :: RegistersId(fields[i], id))
      {
        RegistersIdSplit(fields, front, id);
      }
    }
  }

  /** The formula of the last field that registers `id`, if any: the value
      `footnotes.set` leaves under that key. */
  function LastRegistered(fields: seq<FieldDocumentation>, id: string): (r: Option<string>)
    ensures r.Some? <==> exists i | 0 <= i < |fields| :: RegistersId(fields[i], id)
    ensures r.Some? ==> exists i | 0 <= i < |fields| :: RegistersId(fields[i], id) && fields[i].immutable.value == r.value
  {
    if fields == [] then None
    else
      var front, last := fields[..|fields| - 1], fields[|fields| - 1];
      RegistersIdSplit(fields, front, id);
      if RegistersId(last, id) then Some(last.immutable.value)
      else
        var r := LastRegistered(front, id);
        assert r.Some? ==> exists i | 0 <= i < |front| :: RegistersId(front[i], id) && front[i].immutable.value == r.value;
        assert forall i | 0 <= i < |front| :: front[i] == fields[i];
        r
  }

  /** After the fields register their footnotes, an identifier maps to the
      formula of the last field registering it; an identifier no field
      registers keeps its earlier value. */
  lemma {:induction false} RegisteredFormula(entries: seq<Footnote>, fields: seq<FieldDocumentation>, id: string)
    requires DistinctIds(entries)
    ensures Lookup(RegisterFields(entries, fields), id)
            == if LastRegistered(fields, id).Some? then LastRegistered(fields, id) else Lookup(entries, id)
  {
    if fields != [] {
      var front, last := fields[..|fields| - 1], fields[|fields| - 1];
      RegisteredFormula(entries, front, id);
      RegisteredIds(entries, front);
      var mid := RegisterFields(entries, front);
      if TruthyString(last.immutable) {
        MapSetSpec(mid, FootnoteId(last.immutable.value), last.immutable.value);
      }
    }
  }

  lemma RegistersIdSplit(fields: seq<FieldDocumentation>, front: seq<FieldDocumentation>, id: string)
    requires fields != [] && front == fields[..|fields| - 1]
    ensures (exists i | 0 <= i < |fields| :: RegistersId(fields[i], id))
            <==> (exists i | 0 <= i < |front| :: RegistersId(front[i], id)) || RegistersId(fields[|fields| - 1], id)
  {
    if exists i | 0 <= i < |fields| :: RegistersId(fields[i], id) {
      var i :| 0 <= i < |fields| && RegistersId(fields[i], id);
      if i < |front| {
        assert RegistersId(front[i], id);
      }
    }
    if exists i | 0 <= i < |front| :: RegistersId(front[i], id) {
      var i :| 0 <= i < |front| && RegistersId(front[i], id);
      assert RegistersId(fields[i], id);
    }
  }

  // ---------------------------------------------------------------------
  // The field list renders without blank lines
  // ---------------------------------------------------------------------

  /** Every list and list item below `n` has no blank line between adjacent
      children under the `join` rule. */
  predicate Tight(n: Node)
    decreases n
  {
    match n
    case List(_, children) => AdjacentTight(children) && forall i | 0 <= i < |children| :: Tight(children[i])
    case ListItem(children) => AdjacentTight(children) && forall i | 0 <= i < |children| :: Tight(children[i])
    case _ => true
  }

  /** An item that renders tight: at most one block, preceded by inline
      content, and a nested list only after a "Constraints" or "Example"
      label. */
  predicate TightItemShape(item: Item) {
    var blocks := BlockPart(item);
    && |blocks| <= 1
    && (blocks != [] ==> InlinePart(item) != [])
    && (blocks != [] && blocks[0].List? ==> HasConstraintsOrExample(InlinePart(item)) && Tight(blocks[0]))
  }

  lemma TightItem(item: Item)
    requires TightItemShape(item)
    ensures Tight(ComplexListItem(item))
  {
    var inlineContent, blocks := InlinePart(item), BlockPart(item);
    if blocks != [] {
      var children := [Paragraph(inlineContent), blocks[0]];
      assert blocks == [blocks[0]] && blocks[0] in blocks;
      assert ComplexListItem(item).children == children;
      assert Join(children[0], children[1]) == 0;
      assert Tight(children[0]);
      assert Tight(children[1]);
    }
  }

  lemma TightList(items: seq<Item>)
    requires AllTight(items)
    ensures Tight(ComplexBulletList(items))
  {
    var list := ComplexBulletList(items);
    forall i | 0 <= i < |items| ensures Tight(list.children[i]) {
      TightItem(items[i]);
    }
  }

  /** Parts of inline content followed by one block. */
  lemma InlineThenBlock(item: Item, block: Node)
    requires forall i | 0 <= i < |item| :: !IsBlock(item[i])
    requires IsBlock(block)
    ensures InlinePart(item + [block]) == item && BlockPart(item + [block]) == [block]
  {
    assert (item + [block])[..|item|] == item;
    InlineOnly(item);
  }

  lemma ValueItemShape(libs: Libraries, caption: string, v: Value)
    ensures TightItemShape(ValueItem(libs, caption, v))
  {
    var yamlString := Trim(libs.yamlDump(v));
    if '\n' !in yamlString {
      InlineOnly(ValueItem(libs, caption, v));
    } else {
      InlineThenBlock([Strong([Text(caption)])], Code(Some("yaml"), yamlString));
    }
  }

  /** Every item of the list has the tight shape. */
  predicate AllTight(items: seq<Item>) {
    forall i | 0 <= i < |items| :: TightItemShape(items[i])
  }

  lemma AllTightAppend(a: seq<Item>, b: seq<Item>)
    requires AllTight(a) && AllTight(b)
    ensures AllTight(a + b)
  {
    forall i | 0 <= i < |a + b| ensures TightItemShape((a + b)[i]) {
      if i < |a| {
        assert (a + b)[i] == a[i];
      } else {
        assert (a + b)[i] == b[i - |a|];
      }
    }
  }

  lemma ConstraintItemShapes(libs: Libraries, field: FieldDocumentation)
    ensures AllTight(ConstraintItems(libs, field))
  {
    var imm := ImmutabilityItems(field);
    if imm != [] {
      InlineOnly(imm[0]);
    }
    assert AllTight(imm);
    NumericItemShapes(NumericBounds(field));
    OtherItemShapes(libs, field);
    AllTightAppend(imm, NumericItems(NumericBounds(field)));
    AllTightAppend(imm + NumericItems(NumericBounds(field)), OtherItems(libs, field));
  }

  lemma {:induction false} NumericItemShapes(bounds: seq<(string, Option<int>)>)
    ensures AllTight(NumericItems(bounds))
  {
    if bounds != [] {
      NumericItemShapes(bounds[..|bounds| - 1]);
      var last := bounds[|bounds| - 1];
      var tail: seq<Item> := if last.1.Some? then [NumericItem(last.0, last.1.value)] else [];
      if last.1.Some? {
        InlineOnly(NumericItem(last.0, last.1.value));
      }
      assert AllTight(tail);
      AllTightAppend(NumericItems(bounds[..|bounds| - 1]), tail);
    }
  }

  lemma OtherItemShapes(libs: Libraries, field: FieldDocumentation)
    ensures AllTight(OtherItems(libs, field))
  {
    var unique: seq<Item> := if field.uniqueItems == Some(true) then [[Strong([Text("Unique items:")]), Text(" Yes")]] else [];
    var pattern: seq<Item> := if TruthyString(field.pattern) then [PatternItem(field.pattern.value)] else [];
    var allowed: seq<Item> := if HasAllowedValues(field) then
         [AllowedValuesItem(JsonTexts(libs, field.enumValues.value))]
       else [];
    var validations := ValidationItems(field.validationRules);
    assert AllTight(unique) by {
      if field.uniqueItems == Some(true) {
        InlineOnly(unique[0]);
      }
    }
    assert AllTight(pattern) by {
      if TruthyString(field.pattern) {
        PatternShape(field.pattern.value);
      }
    }
    assert AllTight(allowed) by {
      if HasAllowedValues(field) {
        AllowedValuesShape(JsonTexts(libs, field.enumValues.value));
      }
    }
    ValidationShapes(field.validationRules);
    assert AllTight(unique + pattern + allowed + validations) by {
      AllTightAppend(unique, pattern);
      AllTightAppend(unique + pattern, allowed);
      AllTightAppend(unique + pattern + allowed, validations);
    }
    assert OtherItems(libs, field) == unique + pattern + allowed + validations;
  }

  function PatternItem(pattern: string): Item {
    [Strong([Text("Pattern:")]), Code(Some("regex"), pattern)]
  }

  lemma PatternShape(pattern: string)
    ensures TightItemShape(PatternItem(pattern))
  {
    InlineThenBlock([Strong([Text("Pattern:")])], Code(Some("regex"), pattern));
  }

  function AllowedValuesItem(values: seq<string>): Item {
    [Strong([Text("Allowed values:")]), Text(" ")] + CommaSeparatedCode(values)
  }

  lemma AllowedValuesShape(values: seq<string>)
    ensures TightItemShape(AllowedValuesItem(values))
  {
    CommaSeparatedCodeShape(values);
    var item := AllowedValuesItem(values);
    var nodes := CommaSeparatedCode(values);
    forall i | 0 <= i < |item| ensures !IsBlock(item[i]) {
      if i >= 2 {
        var j := i - 2;
        assert item[i] == nodes[j];
        if j % 2 == 0 {
          assert nodes[2 * (j / 2)] == InlineCode(values[j / 2]);
        } else {
          assert nodes[2 * (j / 2) + 1] == Text(", ");
        }
      }
    }
    InlineOnly(item);
  }

  lemma ValidationItemShape(rule: ValidationRule)
    ensures TightItemShape(ValidationItem(rule))
  {
    var heading := [Strong([Text("Validation:")]), Text(if TruthyString(rule.message) then " " + rule.message.value else " ")];
    InlineThenBlock(heading, Code(Some("cel"), rule.rule));
    assert ValidationItem(rule) == heading + [Code(Some("cel"), rule.rule)];
  }

  lemma {:induction false} ValidationShapes(rules: seq<ValidationRule>)
    ensures AllTight(ValidationItems(rules))
  {
    if rules != [] {
      var front, rule := rules[..|rules| - 1], rules[|rules| - 1];
      ValidationShapes(front);
      ValidationItemShape(rule);
      assert AllTight([ValidationItem(rule)]);
      AllTightAppend(ValidationItems(front), [ValidationItem(rule)]);
      assert ValidationItems(rules) == ValidationItems(front) + [ValidationItem(rule)];
    }
  }

  /** The field-information list renders as one tight block: no blank
      line between its items, between a label and its code block, or
      between "Constraints" and the nested constraint list. */
  lemma FieldListIsTight(libs: Libraries, field: FieldDocumentation)
    ensures Tight(ComplexBulletList(FieldInfoItems(libs, field)))
  {
    var basic := BasicFieldInfo(field);
    var constraints := ConstraintsSection(libs, field);
    var defaults := DefaultValueItems(libs, field);
    var examples := ExampleItems(libs, field.examples);
    BasicFieldInfoTight(field);
    ConstraintsShape(libs, field);
    DefaultValueItemsTight(libs, field);
    ExampleItemsTight(libs, field.examples);
    assert AllTight(FieldInfoItems(libs, field)) by {
      AllTightAppend(basic, constraints);
      AllTightAppend(basic + constraints, defaults);
      AllTightAppend(basic + constraints + defaults, examples);
    }
    TightList(FieldInfoItems(libs, field));
  }

  /** The type and requiredness items are inline only. */
  lemma BasicFieldInfoTight(field: FieldDocumentation)
    ensures AllTight(BasicFieldInfo(field))
  {
    var basic := BasicFieldInfo(field);
    assert TightItemShape(basic[0]) by { InlineOnly(basic[0]); }
    assert TightItemShape(basic[1]) by { InlineOnly(basic[1]); }
  }

  /** The default-value item, when present, has the tight shape. */
  lemma DefaultValueItemsTight(libs: Libraries, field: FieldDocumentation)
    ensures AllTight(DefaultValueItems(libs, field))
  {
    if field.defaultValue.Some? {
      ValueItemShape(libs, "Default value", field.defaultValue.value);
    }
  }

  /** Every example item has the tight shape. */
  lemma ExampleItemsTight(libs: Libraries, examples: seq<Value>)
    ensures AllTight(ExampleItems(libs, examples))
  {
    var items := ExampleItems(libs, examples);
    forall i | 0 <= i < |items| ensures TightItemShape(items[i]) {
      ValueItemShape(libs, "Example", examples[i]);
    }
  }

  /** The "Constraints" item: a label paragraph directly followed by the
      tight nested list. */
  lemma ConstraintsShape(libs: Libraries, field: FieldDocumentation)
    ensures AllTight(ConstraintsSection(libs, field))
  {
    var nested := ConstraintItems(libs, field);
    if |nested| > 0 {
      ConstraintItemShapes(libs, field);
      LabelledListShape(nested);
      assert ConstraintsSection(libs, field) == [[Strong([Text("Constraints")]), ComplexBulletList(nested)]];
    }
  }

  /** A "Constraints" label followed by a list of tight items is tight. */
  lemma LabelledListShape(nested: seq<Item>)
    requires AllTight(nested)
    ensures TightItemShape([Strong([Text("Constraints")]), ComplexBulletList(nested)])
  {
    var heading, block := [Strong([Text("Constraints")])], ComplexBulletList(nested);
    var item := heading + [block];
    assert Tight(block) by {
      TightList(nested);
    }
    assert InlinePart(item) == heading && BlockPart(item) == [block] by {
      InlineThenBlock(heading, block);
    }
    assert HasConstraintsOrExample(heading) by {
      assert IsSectionLabel(heading[0].children[0]);
    }
    assert [Strong([Text("Constraints")]), block] == item;
  }
}
