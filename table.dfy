/** The quick-reference table (ts/models/table.ts): one row per documented
    field, filtered by requiredness and by path depth, with a flag telling
    whether the depth filter dropped anything. */
module Table {
  import opened JsValues
  import opened JsStrings
  import opened Document
  import Converter
  import Crd

  datatype QuickReferenceField = QuickReferenceField(path: string, fieldType: string, required: bool, description: string)

  datatype QuickReferenceTable = QuickReferenceTable(fields: seq<QuickReferenceField>, hasOmittedFieldsDueToDepth: bool)

  /** Every option may be left undefined; see the accessors for defaults. */
  datatype QuickReferenceOptions = QuickReferenceOptions(
    includeStatusFields: Option<bool>,
    onlyRequired: Option<bool>,
    maxDepth: Option<int>)
  {
    function IncludeStatusFields(): bool { includeStatusFields.GetOr(true) }
    function OnlyRequired(): bool { onlyRequired.GetOr(false) }
    /** 0 switches the depth filter off (`if (maxDepth && ...)`). */
    function MaxDepth(): int { maxDepth.GetOr(2) }
  }

  /** `options = {}` */
  const NoOptions := QuickReferenceOptions(None, None, None)

  /** `fieldPath.split(".").length` */
  function Depth(path: string): (d: nat)
    ensures d >= 1
    ensures d == 1 <==> '.' !in path
  {
    SplitCount(path, '.')
  }

  /** Dropped by the requiredness filter. */
  predicate SkippedAsOptional(f: FieldDocumentation, onlyRequired: bool) {
    onlyRequired && !f.required
  }

  /** Dropped by the depth filter. */
  predicate TooDeep(f: FieldDocumentation, maxDepth: int) {
    maxDepth != 0 && Depth(f.fieldPath) > maxDepth
  }

  /** Survives both filters. */
  predicate Kept(f: FieldDocumentation, onlyRequired: bool, maxDepth: int) {
    !SkippedAsOptional(f, onlyRequired) && !TooDeep(f, maxDepth)
  }

  /** The row of one field; a missing description becomes "". */
  function EntryOf(f: FieldDocumentation): QuickReferenceField {
    QuickReferenceField(f.fieldPath, f.fieldType, f.required, f.description.GetOr(""))
  }

  /** The rows of the fields that survive both filters, in order. */
  function Entries(fieldDocs: seq<FieldDocumentation>, onlyRequired: bool, maxDepth: int): (rows: seq<QuickReferenceField>)
    ensures |rows| <= |fieldDocs|
  {
    if fieldDocs == [] then []
    else
      var last := fieldDocs[|fieldDocs| - 1];
      Entries(fieldDocs[..|fieldDocs| - 1], onlyRequired, maxDepth)
        + (if Kept(last, onlyRequired, maxDepth) then [EntryOf(last)] else [])
  }

  /** Whether the depth filter dropped a field the requiredness filter let
      through (the requiredness check runs first). */
  predicate OmitsForDepth(fieldDocs: seq<FieldDocumentation>, onlyRequired: bool, maxDepth: int) {
    && fieldDocs != []
    && var last := fieldDocs[|fieldDocs| - 1];
       || OmitsForDepth(fieldDocs[..|fieldDocs| - 1], onlyRequired, maxDepth)
       || (!SkippedAsOptional(last, onlyRequired) && TooDeep(last, maxDepth))
  }

  /** The table `getQuickReferenceTable` returns: spec rows, then status rows
      when included. */
  function QuickReference(apiDoc: APIDocumentation, options: QuickReferenceOptions): (table: QuickReferenceTable)
    ensures |table.fields| <= |apiDoc.specFields| + (if options.IncludeStatusFields() then |apiDoc.statusFields| else 0)
    ensures |Entries(apiDoc.specFields, options.OnlyRequired(), options.MaxDepth())| <= |table.fields|
    ensures OmitsForDepth(apiDoc.specFields, options.OnlyRequired(), options.MaxDepth()) ==> table.hasOmittedFieldsDueToDepth
  {
    var onlyRequired := options.OnlyRequired();
    var maxDepth := options.MaxDepth();
    QuickReferenceTable(
      Entries(apiDoc.specFields, onlyRequired, maxDepth)
        + (if options.IncludeStatusFields() then Entries(apiDoc.statusFields, onlyRequired, maxDepth) else []),
      OmitsForDepth(apiDoc.specFields, onlyRequired, maxDepth)
        || (options.IncludeStatusFields() && OmitsForDepth(apiDoc.statusFields, onlyRequired, maxDepth)))
  }

  /** The `processFields` closure: appends the surviving rows to `fields` and
      raises the flag when the depth filter drops something. */
  method ProcessFields(fieldDocs: seq<FieldDocumentation>, onlyRequired: bool, maxDepth: int,
                       fields0: seq<QuickReferenceField>, omitted0: bool)
    returns (fields: seq<QuickReferenceField>, omitted: bool)
    ensures fields == fields0 + Entries(fieldDocs, onlyRequired, maxDepth)
    ensures omitted == (omitted0 || OmitsForDepth(fieldDocs, onlyRequired, maxDepth))
  {
    fields, omitted := fields0, omitted0;
    for i := 0 to |fieldDocs|
      invariant fields == fields0 + Entries(fieldDocs[..i], onlyRequired, maxDepth)
      invariant omitted == (omitted0 || OmitsForDepth(fieldDocs[..i], onlyRequired, maxDepth))
    {
      var field := fieldDocs[i];
      assert fieldDocs[..i + 1][..i] == fieldDocs[..i];
      assert fieldDocs[..i + 1][i] == field;
      assert Entries(fieldDocs[..i + 1], onlyRequired, maxDepth)
          == Entries(fieldDocs[..i], onlyRequired, maxDepth) + (if Kept(field, onlyRequired, maxDepth) then [EntryOf(field)] else []);
      assert OmitsForDepth(fieldDocs[..i + 1], onlyRequired, maxDepth)
          == (OmitsForDepth(fieldDocs[..i], onlyRequired, maxDepth) || (!SkippedAsOptional(field, onlyRequired) && TooDeep(field, maxDepth)));
      if onlyRequired && !field.required {
        continue;
      }
      var depth := Depth(field.fieldPath);
      if maxDepth != 0 && depth > maxDepth {
        omitted := true;
        continue;
      }
      fields := fields + [QuickReferenceField(field.fieldPath, field.fieldType, field.required, field.description.GetOr(""))];
    }
    assert fieldDocs[..|fieldDocs|] == fieldDocs;
  }

  /** getQuickReferenceTable */
  method GetQuickReferenceTable(apiDoc: APIDocumentation, options: QuickReferenceOptions)
    returns (table: QuickReferenceTable)
    ensures table == QuickReference(apiDoc, options)
  {
    var includeStatusFields := options.IncludeStatusFields();
    var onlyRequired := options.OnlyRequired();
    var maxDepth := options.MaxDepth();
    var fields: seq<QuickReferenceField> := [];
    var hasOmittedFieldsDueToDepth := false;
    fields, hasOmittedFieldsDueToDepth := ProcessFields(apiDoc.specFields, onlyRequired, maxDepth, fields, hasOmittedFieldsDueToDepth);
    if includeStatusFields {
      fields, hasOmittedFieldsDueToDepth := ProcessFields(apiDoc.statusFields, onlyRequired, maxDepth, fields, hasOmittedFieldsDueToDepth);
    }
    return QuickReferenceTable(fields, hasOmittedFieldsDueToDepth);
  }

  /** getRequiredFieldsTable: required spec fields up to depth 2. */
  method GetRequiredFieldsTable(apiDoc: APIDocumentation) returns (table: QuickReferenceTable)
    ensures table == QuickReference(apiDoc, QuickReferenceOptions(Some(false), Some(true), None))
    ensures forall r | r in table.fields :: r.required && Depth(r.path) <= 2
    ensures table.fields == Entries(apiDoc.specFields, true, 2)
  {
    table := GetQuickReferenceTable(apiDoc, QuickReferenceOptions(Some(false), Some(true), None));
    RowsRespectFilters(apiDoc, QuickReferenceOptions(Some(false), Some(true), None));
  }

  /** getTopLevelFieldsTable: spec and status fields without a dot. */
  method GetTopLevelFieldsTable(apiDoc: APIDocumentation) returns (table: QuickReferenceTable)
    ensures table == QuickReference(apiDoc, QuickReferenceOptions(None, None, Some(1)))
    ensures forall r | r in table.fields :: '.' !in r.path
  {
    table := GetQuickReferenceTable(apiDoc, QuickReferenceOptions(None, None, Some(1)));
    RowsRespectFilters(apiDoc, QuickReferenceOptions(None, None, Some(1)));
  }

  /** A row is present iff its field survives both filters. */
  lemma {:induction false} EntriesMembership(fieldDocs: seq<FieldDocumentation>, onlyRequired: bool, maxDepth: int)
    ensures forall r :: r in Entries(fieldDocs, onlyRequired, maxDepth) <==>
                        exists i | 0 <= i < |fieldDocs| :: Kept(fieldDocs[i], onlyRequired, maxDepth) && r == EntryOf(fieldDocs[i])
  {
    if fieldDocs != [] {
      var front := fieldDocs[..|fieldDocs| - 1];
      EntriesMembership(front, onlyRequired, maxDepth);
      assert forall i | 0 <= i < |front| :: front[i] == fieldDocs[i];
    }
  }

  /** The flag is raised iff some field passes the requiredness filter and
      fails the depth filter. */
  lemma {:induction false} OmitsForDepthWitness(fieldDocs: seq<FieldDocumentation>, onlyRequired: bool, maxDepth: int)
    ensures OmitsForDepth(fieldDocs, onlyRequired, maxDepth) <==>
            exists i | 0 <= i < |fieldDocs| :: !SkippedAsOptional(fieldDocs[i], onlyRequired) && TooDeep(fieldDocs[i], maxDepth)
  {
    if fieldDocs != [] {
      var front := fieldDocs[..|fieldDocs| - 1];
      OmitsForDepthWitness(front, onlyRequired, maxDepth);
      assert forall i | 0 <= i < |front| :: front[i] == fieldDocs[i];
    }
  }

  /** Every row respects the requiredness filter and the depth limit. */
  lemma RowsRespectFilters(apiDoc: APIDocumentation, options: QuickReferenceOptions)
    ensures forall r | r in QuickReference(apiDoc, options).fields ::
              (options.OnlyRequired() ==> r.required)
              && (options.MaxDepth() != 0 ==> Depth(r.path) <= options.MaxDepth())
  {
    EntriesMembership(apiDoc.specFields, options.OnlyRequired(), options.MaxDepth());
    EntriesMembership(apiDoc.statusFields, options.OnlyRequired(), options.MaxDepth());
  }

  /** Status rows appear iff status fields are included: without them the
      table is the spec rows alone, and the status fields cannot raise the
      flag. */
  lemma StatusFieldsExcluded(apiDoc: APIDocumentation, options: QuickReferenceOptions)
    requires !options.IncludeStatusFields()
    ensures QuickReference(apiDoc, options)
            == QuickReference(apiDoc.(statusFields := []), options)
  {
  }

  /** The default table (depth 2, status included) keeps every field of a
      shallow document, and then raises no flag. */
  lemma ShallowDocumentKeepsEverything(apiDoc: APIDocumentation)
    requires forall f | f in apiDoc.specFields + apiDoc.statusFields :: Depth(f.fieldPath) <= 2
    ensures |QuickReference(apiDoc, NoOptions).fields| == |apiDoc.specFields| + |apiDoc.statusFields|
    ensures !QuickReference(apiDoc, NoOptions).hasOmittedFieldsDueToDepth
  {
    AllKept(apiDoc.specFields, 2);
    AllKept(apiDoc.statusFields, 2);
  }

  lemma {:induction false} AllKept(fieldDocs: seq<FieldDocumentation>, maxDepth: int)
    requires forall f | f in fieldDocs :: Depth(f.fieldPath) <= maxDepth
    ensures |Entries(fieldDocs, false, maxDepth)| == |fieldDocs|
    ensures !OmitsForDepth(fieldDocs, false, maxDepth)
  {
    if fieldDocs != [] {
      var front := fieldDocs[..|fieldDocs| - 1];
      assert forall f | f in front :: f in fieldDocs;
      AllKept(front, maxDepth);
    }
  }

  /** The converter never emits a depth-1 path (every path is below "spec."
      or "status."), so the top-level table of a converted document is
      empty, and its flag is raised exactly when the document has fields. */
  lemma TopLevelTableOfConvertedDocument(crd: Crd.CustomResourceDefinition)
    requires Converter.ConvertCRDToAPIDoc(crd).Ok?
    ensures var apiDoc := Converter.ConvertCRDToAPIDoc(crd).value;
            var table := QuickReference(apiDoc, QuickReferenceOptions(None, None, Some(1)));
            table.fields == []
            && (table.hasOmittedFieldsDueToDepth <==> apiDoc.specFields + apiDoc.statusFields != [])
  {
    var apiDoc := Converter.ConvertCRDToAPIDoc(crd).value;
    Converter.FieldPathsUnderRoots(crd);
    DeepFieldsDropped(apiDoc.specFields, "spec");
    DeepFieldsDropped(apiDoc.statusFields, "status");
  }

  lemma {:induction false} DeepFieldsDropped(fieldDocs: seq<FieldDocumentation>, root: string)
    requires forall f | f in fieldDocs :: Converter.Under(f.fieldPath, root)
    ensures Entries(fieldDocs, false, 1) == []
    ensures OmitsForDepth(fieldDocs, false, 1) <==> fieldDocs != []
  {
    if fieldDocs != [] {
      var front := fieldDocs[..|fieldDocs| - 1];
      var last := fieldDocs[|fieldDocs| - 1];
      assert forall f | f in front :: f in fieldDocs;
      DeepFieldsDropped(front, root);
      assert Converter.Under(last.fieldPath, root);
      var p := last.fieldPath;
      assert p[|root|] == '.' by {
        assert p[..|root| + 1][|root|] == (root + ".")[|root|];
      }
      assert '.' in p;
      assert TooDeep(last, 1);
    }
  }
}
