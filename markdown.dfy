/** The document level of the markdown writer (ts/writer/markdown.ts): the
    tree for one API, the combined tree for several, the overview and quick
    reference sections, and the calls into the serializer. */
module MarkdownDocument {
  import opened JsValues
  import opened JsStrings
  import opened Crd
  import opened Document
  import opened Table
  import opened MarkdownAst
  import opened MarkdownFootnotes
  import opened MarkdownFields
  import opened SeqFacts

  // ---------------------------------------------------------------------
  // Overview (addOverviewSection)
  // ---------------------------------------------------------------------

  /** `${apiDoc.scope}` */
  function ScopeName(scope: Scope): string {
    match scope
    case Namespaced => "Namespaced"
    case Cluster => "Cluster"
  }

  /** `label` followed by the value as inline code. */
  function CodeItem(caption: string, value: string): seq<Node> {
    [Strong([Text(caption)]), Text(" "), InlineCode(value)]
  }

  function PluralItems(metadata: Option<Metadata>): seq<seq<Node>> {
    if metadata.Some? && metadata.value.plural != "" then [CodeItem("Plural:", metadata.value.plural)] else []
  }

  function SingularItems(metadata: Option<Metadata>): seq<seq<Node>> {
    if metadata.Some? && metadata.value.singular != "" then [CodeItem("Singular:", metadata.value.singular)] else []
  }

  /** Whether the metadata lists at least one short name. */
  predicate HasShortNames(metadata: Option<Metadata>) {
    metadata.Some? && metadata.value.shortNames.Some? && |metadata.value.shortNames.value| > 0
  }

  function ShortNameItems(metadata: Option<Metadata>): seq<seq<Node>> {
    if HasShortNames(metadata) then
      [[Strong([Text("Short names:")]), Text(" ")] + CommaSeparatedCode(metadata.value.shortNames.value)]
    else []
  }

  /** API version and scope always; plural, singular and short names when
      the metadata carries them. */
  function OverviewItems(apiDoc: APIDocumentation): seq<seq<Node>> {
    [CodeItem("API version:", apiDoc.group + "/" + apiDoc.version),
     [Strong([Text("Scope:")]), Text(" " + ScopeName(apiDoc.scope))]]
      + PluralItems(apiDoc.metadata) + SingularItems(apiDoc.metadata) + ShortNameItems(apiDoc.metadata)
  }

  method AddOverviewSection(apiDoc: APIDocumentation) returns (list: Node)
    ensures list == BulletList(OverviewItems(apiDoc))
  {
    var overviewItems := [CodeItem("API version:", apiDoc.group + "/" + apiDoc.version),
                          [Strong([Text("Scope:")]), Text(" " + ScopeName(apiDoc.scope))]];
    if apiDoc.metadata.Some? && apiDoc.metadata.value.plural != "" {
      overviewItems := overviewItems + [CodeItem("Plural:", apiDoc.metadata.value.plural)];
    }
    if apiDoc.metadata.Some? && apiDoc.metadata.value.singular != "" {
      overviewItems := overviewItems + [CodeItem("Singular:", apiDoc.metadata.value.singular)];
    }
    if HasShortNames(apiDoc.metadata) {
      var shortNames := SeparateAfter(apiDoc.metadata.value.shortNames.value);
      overviewItems := overviewItems + [[Strong([Text("Short names:")]), Text(" ")] + shortNames];
    }
    list := BulletList(overviewItems);
  }

  /** The overview always opens with the API version and the scope, and has
      one more item for each of plural, singular and short names present. */
  lemma OverviewShape(apiDoc: APIDocumentation)
    ensures var items := OverviewItems(apiDoc);
            && |items| == 2 + |PluralItems(apiDoc.metadata)| + |SingularItems(apiDoc.metadata)|
                            + |ShortNameItems(apiDoc.metadata)|
            && items[0] == CodeItem("API version:", apiDoc.group + "/" + apiDoc.version)
            && (apiDoc.metadata.None? ==> |items| == 2)
            && (HasShortNames(apiDoc.metadata) ==>
                  items[|items| - 1][2] == InlineCode(apiDoc.metadata.value.shortNames.value[0]))
  {
    if HasShortNames(apiDoc.metadata) {
      CommaSeparatedCodeShape(apiDoc.metadata.value.shortNames.value);
    }
  }

  // ---------------------------------------------------------------------
  // Quick reference (addQuickReferenceSection, renderQuickReferenceTable)
  // ---------------------------------------------------------------------

  /** The "required" mark as the source file spells it: the three
      characters U+00E2 U+0153 U+201C, which is how the UTF-8 bytes of the
      check mark U+2713 read when decoded as Windows-1252. */
  const CheckMark := "\U{00E2}\U{0153}\U{201C}"

  /** `substring(0, maxLength - 3)` plus "..." once the text is longer than
      `maxLength`; a negative end counts as 0. */
  function TruncateDescription(description: string, maxLength: int): (r: string)
    ensures |description| <= maxLength ==> r == description
    ensures |description| > maxLength && maxLength >= 3 ==>
              |r| == maxLength && r[..maxLength - 3] == description[..maxLength - 3] && r[maxLength - 3..] == "..."
    ensures |description| > maxLength && maxLength < 3 ==> r == "..."
  {
    if |description| <= maxLength then description
    else
      var end := if maxLength - 3 < 0 then 0 else maxLength - 3;
      description[..end] + "..."
  }

  const Headers := ["Field path", "Type", "Required", "Description"]

  function HeaderRow(): Node {
    TableRow(seq(|Headers|, i requires 0 <= i < |Headers| => TableCell([Text(Headers[i])])))
  }

  function DataRow(field: QuickReferenceField): Node {
    TableRow([
      TableCell([InlineCode(field.path)]),
      TableCell([InlineCode(field.fieldType)]),
      TableCell([Text(if field.required then CheckMark else "")]),
      TableCell([Text(TruncateDescription(field.description, 60))])])
  }

  function TableNode(table: QuickReferenceTable): Node {
    Table([HeaderRow()] + seq(|table.fields|, i requires 0 <= i < |table.fields| => DataRow(table.fields[i])))
  }

  method RenderQuickReferenceTable(table: QuickReferenceTable) returns (node: Node)
    ensures node == TableNode(table)
  {
    var headers := ["Field path", "Type", "Required", "Description"];
    var rows := [TableRow([TableCell([Text(headers[0])]), TableCell([Text(headers[1])]),
                           TableCell([Text(headers[2])]), TableCell([Text(headers[3])])])];
    assert rows[0] == HeaderRow();
    for i := 0 to |table.fields|
      invariant |rows| == i + 1 && rows[0] == HeaderRow()
      invariant forall j | 0 <= j < i :: rows[j + 1] == DataRow(table.fields[j])
    {
      var field := table.fields[i];
      var description := field.description;
      if |description| > 60 {
        description := description[..57] + "...";
      }
      rows := rows + [TableRow([
        TableCell([InlineCode(field.path)]),
        TableCell([InlineCode(field.fieldType)]),
        TableCell([Text(if field.required then CheckMark else "")]),
        TableCell([Text(description)])])];
    }
    node := Table(rows);
  }

  /** A header row and one four-cell row per entry, whose third cell holds
      the mark exactly for required fields and whose last cell holds at most
      60 characters. */
  lemma TableShape(table: QuickReferenceTable)
    ensures var node := TableNode(table);
            && |node.children| == |table.fields| + 1
            && node.children[0] == HeaderRow()
            && forall i | 0 <= i < |table.fields| ::
                 var row := node.children[i + 1];
                 && |row.children| == 4
                 && row.children[0] == TableCell([InlineCode(table.fields[i].path)])
                 && (row.children[2].children[0].value != "" <==> table.fields[i].required)
                 && |row.children[3].children[0].value| <= 60
  {
  }

  /** The options addQuickReferenceSection passes: depth at most 2. */
  const QuickReferenceDepth := QuickReferenceOptions(None, None, Some(2))

  const DepthNote := Paragraph([
    Text("Note: This table shows fields up to 2 levels deep. "),
    Text("Deeper nested fields are documented in the sections below.")])

  function QuickReferenceNodes(apiDoc: APIDocumentation, baseHeadingLevel: int): seq<Node> {
    var table := QuickReference(apiDoc, QuickReferenceDepth);
    if |table.fields| > 0 then
      [HeadingText(baseHeadingLevel + 1, "Quick Reference"), TableNode(table)]
        + (if table.hasOmittedFieldsDueToDepth then [DepthNote] else [])
    else []
  }

  method AddQuickReferenceSection(apiDoc: APIDocumentation, baseHeadingLevel: int) returns (nodes: seq<Node>)
    ensures nodes == QuickReferenceNodes(apiDoc, baseHeadingLevel)
  {
    var quickRefTable := GetQuickReferenceTable(apiDoc, QuickReferenceOptions(None, None, Some(2)));
    nodes := [];
    if |quickRefTable.fields| > 0 {
      var tableNode := RenderQuickReferenceTable(quickRefTable);
      nodes := [HeadingText(baseHeadingLevel + 1, "Quick Reference"), tableNode];
      if quickRefTable.hasOmittedFieldsDueToDepth {
        nodes := nodes + [DepthNote];
      }
    }
  }

  /** The section appears iff some spec or status field of depth at most 2
      exists; the note appears with it iff a deeper field was left out. */
  lemma QuickReferenceSectionPresence(apiDoc: APIDocumentation, baseHeadingLevel: int)
    ensures var nodes := QuickReferenceNodes(apiDoc, baseHeadingLevel);
            && (nodes != [] <==>
                  (exists i | 0 <= i < |apiDoc.specFields| :: Depth(apiDoc.specFields[i].fieldPath) <= 2)
                  || (exists i | 0 <= i < |apiDoc.statusFields| :: Depth(apiDoc.statusFields[i].fieldPath) <= 2))
            && (nodes != [] ==> (|nodes| == 3 <==> QuickReference(apiDoc, QuickReferenceDepth).hasOmittedFieldsDueToDepth))
  {
    var table := QuickReference(apiDoc, QuickReferenceDepth);
    KeptRowsExist(apiDoc.specFields);
    KeptRowsExist(apiDoc.statusFields);
    assert table.fields == Entries(apiDoc.specFields, false, 2) + Entries(apiDoc.statusFields, false, 2);
  }

  lemma {:induction false} KeptRowsExist(fieldDocs: seq<FieldDocumentation>)
    ensures Entries(fieldDocs, false, 2) != [] <==> exists i | 0 <= i < |fieldDocs| :: Depth(fieldDocs[i].fieldPath) <= 2
  {
    if fieldDocs != [] {
      var front := fieldDocs[..|fieldDocs| - 1];
      KeptRowsExist(front);
      assert forall i | 0 <= i < |front| :: front[i] == fieldDocs[i];
    }
  }

  // ---------------------------------------------------------------------
  // One document (buildDocumentASTWithFootnotes, renderAPIDocumentation)
  // ---------------------------------------------------------------------

  /** Everything before the footnote definitions: title, description,
      overview, quick reference, spec and status sections. */
  function DocumentBody(libs: Libraries, apiDoc: APIDocumentation, baseHeadingLevel: int): (nodes: seq<Node>)
    ensures |nodes| > 0 && nodes[0] == HeadingText(baseHeadingLevel, apiDoc.title)
    ensures var overview := 1 + |DescriptionNodes(libs, apiDoc.description)|;
            overview < |nodes| && nodes[overview] == BulletList(OverviewItems(apiDoc))
    ensures var spec := 2 + |DescriptionNodes(libs, apiDoc.description)| + |QuickReferenceNodes(apiDoc, baseHeadingLevel)|;
            var status := |nodes| - |FieldsSectionNodes(libs, apiDoc.statusFields, "Status", baseHeadingLevel)|;
            spec < status < |nodes|
            && nodes[spec] == HeadingText(baseHeadingLevel + 1, "Spec")
            && nodes[status] == HeadingText(baseHeadingLevel + 1, "Status")
  {
    [HeadingText(baseHeadingLevel, apiDoc.title)]
      + DescriptionNodes(libs, apiDoc.description)
      + [BulletList(OverviewItems(apiDoc))]
      + QuickReferenceNodes(apiDoc, baseHeadingLevel)
      + FieldsSectionNodes(libs, apiDoc.specFields, "Spec", baseHeadingLevel)
      + FieldsSectionNodes(libs, apiDoc.statusFields, "Status", baseHeadingLevel)
  }

  /** The footnote map after the document's spec and status fields. */
  function DocumentFootnotes(entries: seq<Footnote>, apiDoc: APIDocumentation): seq<Footnote> {
    RegisterFields(RegisterFields(entries, apiDoc.specFields), apiDoc.statusFields)
  }

  method BuildDocumentASTWithFootnotes(libs: Libraries, apiDoc: APIDocumentation, baseHeadingLevel: int,
                                       footnotes: FootnotePool)
    returns (root: Node)
    requires footnotes.Valid()
    modifies footnotes
    ensures footnotes.Valid()
    ensures footnotes.entries == DocumentFootnotes(old(footnotes.entries), apiDoc)
    ensures root == Root(DocumentBody(libs, apiDoc, baseHeadingLevel) + FootnoteDefinitions(footnotes.entries))
  {
    var children := [HeadingText(baseHeadingLevel, apiDoc.title)];
    if apiDoc.description.Some? && apiDoc.description.value != "" {
      children := children + libs.fromMarkdown(apiDoc.description.value);
    }
    assert children == [HeadingText(baseHeadingLevel, apiDoc.title)] + DescriptionNodes(libs, apiDoc.description);
    var overview := AddOverviewSection(apiDoc);
    children := children + [overview];
    var quickReference := AddQuickReferenceSection(apiDoc, baseHeadingLevel);
    children := children + quickReference;
    var spec := AddFieldsSection(libs, apiDoc.specFields, "Spec", baseHeadingLevel, footnotes);
    children := children + spec;
    var status := AddFieldsSection(libs, apiDoc.statusFields, "Status", baseHeadingLevel, footnotes);
    children := children + status;
    assert children == [HeadingText(baseHeadingLevel, apiDoc.title)] + DescriptionNodes(libs, apiDoc.description)
      + [overview] + quickReference + spec + status;
    var definitions := AddFootnoteDefinitions(footnotes);
    root := Root(children + definitions);
  }

  /** The tree renderAPIDocumentation serializes: top-level headings, the
      footnotes of this document only. */
  function DocumentRoot(libs: Libraries, apiDoc: APIDocumentation): Node {
    Root(DocumentBody(libs, apiDoc, 1) + FootnoteDefinitions(DocumentFootnotes([], apiDoc)))
  }

  method RenderAPIDocumentation(libs: Libraries, apiDoc: APIDocumentation) returns (markdown: string)
    ensures markdown == libs.toMarkdown(DocumentRoot(libs, apiDoc), Join)
  {
    var footnotes := new FootnotePool();
    var root := BuildDocumentASTWithFootnotes(libs, apiDoc, 1, footnotes);
    markdown := libs.toMarkdown(root, Join);
  }

  /** Whether a spec or status field of the document registers `id`. */
  predicate DocumentRegisters(apiDoc: APIDocumentation, id: string) {
    || (exists i | 0 <= i < |apiDoc.specFields| :: RegistersId(apiDoc.specFields[i], id))
    || (exists i | 0 <= i < |apiDoc.statusFields| :: RegistersId(apiDoc.statusFields[i], id))
  }

  /** `id` is the identifier of some definition in the list. */
  predicate Defines(definitions: seq<Node>, id: string) {
    exists k | 0 <= k < |definitions| :: definitions[k].FootnoteDefinition? && definitions[k].identifier == id
  }

  lemma DefinesIffLookup(entries: seq<Footnote>, id: string)
    ensures Defines(FootnoteDefinitions(entries), id) <==> Lookup(entries, id).Some?
  {
    var defs := FootnoteDefinitions(entries);
    if Defines(defs, id) {
      var k :| 0 <= k < |defs| && defs[k].FootnoteDefinition? && defs[k].identifier == id;
      assert entries[k].id == id;
    }
  }

  /** A single document defines one footnote per distinct immutability
      formula among its fields, and nothing else: every reference the field
      sections make has its definition, and no definition is orphaned. */
  lemma DocumentFootnotesMatchReferences(apiDoc: APIDocumentation)
    ensures var entries := DocumentFootnotes([], apiDoc);
            && DistinctIds(entries)
            && forall id :: Defines(FootnoteDefinitions(entries), id) <==> DocumentRegisters(apiDoc, id)
  {
    RegisteredIds([], apiDoc.specFields);
    RegisteredIds(RegisterFields([], apiDoc.specFields), apiDoc.statusFields);
    var entries := DocumentFootnotes([], apiDoc);
    forall id ensures Defines(FootnoteDefinitions(entries), id) <==> DocumentRegisters(apiDoc, id) {
      DefinesIffLookup(entries, id);
    }
  }

  /** Each immutable field's footnote shows that field's own CEL formula,
      provided no two formulas of the document collide on one identifier,
      which holds when none contains an underscore (the converter's
      immutability rules never do). */
  lemma DocumentFootnoteShowsFormula(apiDoc: APIDocumentation, field: FieldDocumentation)
    requires field in apiDoc.specFields || field in apiDoc.statusFields
    requires TruthyString(field.immutable)
    requires forall g | g in apiDoc.specFields || g in apiDoc.statusFields ::
               g.immutable.Some? ==> '_' !in g.immutable.value
    ensures var v := field.immutable.value;
            var defs := FootnoteDefinitions(DocumentFootnotes([], apiDoc));
            exists k | 0 <= k < |defs| ::
              defs[k] == FootnoteDefinition(FootnoteId(v), [Paragraph([Text(ImmutableNote), InlineCode(v)])])
  {
    var v := field.immutable.value;
    var id := FootnoteId(v);
    var spec, status := apiDoc.specFields, apiDoc.statusFields;
    var mid := RegisterFields([], spec);
    RegisteredIds([], spec);
    RegisteredFormula([], spec, id);
    RegisteredFormula(mid, status, id);
    var w: string;
    if LastRegistered(status, id).Some? {
      w := LastRegistered(status, id).value;
      var i :| 0 <= i < |status| && RegistersId(status[i], id) && status[i].immutable.value == w;
      assert status[i] in status;
    } else {
      assert field !in status;
      var j :| 0 <= j < |spec| && spec[j] == field;
      assert RegistersId(spec[j], id);
      w := LastRegistered(spec, id).value;
      var i :| 0 <= i < |spec| && RegistersId(spec[i], id) && spec[i].immutable.value == w;
      assert spec[i] in spec;
    }
    FootnoteIdInjective(w, v);
    assert Lookup(DocumentFootnotes([], apiDoc), id) == Some(v);
    LookupDefinition(DocumentFootnotes([], apiDoc), id, v);
  }

  // ---------------------------------------------------------------------
  // Several documents (renderCombinedDocumentation)
  // ---------------------------------------------------------------------

  /** Code-point order on kind names, standing in for `localeCompare`. */
  predicate KindLeq(a: string, b: string) {
    if a == [] then true
    else if b == [] then false
    else if a[0] != b[0] then a[0] < b[0]
    else KindLeq(a[1..], b[1..])
  }

  lemma {:induction false} KindLeqTotal(a: string, b: string)
    ensures KindLeq(a, b) || KindLeq(b, a)
  {
    if a != [] && b != [] && a[0] == b[0] {
      KindLeqTotal(a[1..], b[1..]);
    }
  }

  lemma {:induction false} KindLeqTransitive(a: string, b: string, c: string)
    requires KindLeq(a, b) && KindLeq(b, c)
    ensures KindLeq(a, c)
  {
    if a != [] && b != [] && c != [] && a[0] == b[0] && b[0] == c[0] {
      KindLeqTransitive(a[1..], b[1..], c[1..]);
    }
  }

  predicate SortedByKind(docs: seq<APIDocumentation>) {
    forall i, j | 0 <= i < j < |docs| :: KindLeq(docs[i].kind, docs[j].kind)
  }

  /** Places `doc` after every document whose kind does not exceed its own. */
  function InsertByKind(sorted: seq<APIDocumentation>, doc: APIDocumentation): (r: seq<APIDocumentation>)
    ensures |r| == |sorted| + 1
  {
    if sorted == [] || KindLeq(sorted[|sorted| - 1].kind, doc.kind) then sorted + [doc]
    else InsertByKind(sorted[..|sorted| - 1], doc) + [sorted[|sorted| - 1]]
  }

  /** The stable sort of `[...apiDocs].sort(...)`. */
  function SortByKind(docs: seq<APIDocumentation>): (r: seq<APIDocumentation>)
    ensures |r| == |docs|
  {
    if docs == [] then []
    else InsertByKind(SortByKind(docs[..|docs| - 1]), docs[|docs| - 1])
  }

  /** Insertion adds `doc` and nothing else. */
  lemma {:induction false} InsertByKindPermutation(sorted: seq<APIDocumentation>, doc: APIDocumentation)
    ensures multiset(InsertByKind(sorted, doc)) == multiset(sorted) + multiset{doc}
  {
    if !(sorted == [] || KindLeq(sorted[|sorted| - 1].kind, doc.kind)) {
      var front, last := sorted[..|sorted| - 1], sorted[|sorted| - 1];
      assert sorted == front + [last];
      InsertByKindPermutation(front, doc);
    }
  }

  /** Every element after insertion is `doc` or was already there. */
  lemma {:induction false} InsertByKindElements(sorted: seq<APIDocumentation>, doc: APIDocumentation)
    ensures forall i | 0 <= i < |InsertByKind(sorted, doc)| ::
              InsertByKind(sorted, doc)[i] == doc
              || exists k | 0 <= k < |sorted| :: InsertByKind(sorted, doc)[i] == sorted[k]
  {
    var r := InsertByKind(sorted, doc);
    if sorted == [] || KindLeq(sorted[|sorted| - 1].kind, doc.kind) {
      forall i | 0 <= i < |r| ensures r[i] == doc || exists k | 0 <= k < |sorted| :: r[i] == sorted[k] {
        if i < |sorted| {
          assert r[i] == sorted[i];
        }
      }
    } else {
      var front, last := sorted[..|sorted| - 1], sorted[|sorted| - 1];
      InsertByKindElements(front, doc);
      var mid := InsertByKind(front, doc);
      forall i | 0 <= i < |r| ensures r[i] == doc || exists k | 0 <= k < |sorted| :: r[i] == sorted[k] {
        if i < |mid| {
          assert r[i] == mid[i];
          if r[i] != doc {
            var k :| 0 <= k < |front| && mid[i] == front[k];
            assert r[i] == sorted[k];
          }
        } else {
          assert r[i] == sorted[|sorted| - 1];
        }
      }
    }
  }

  /** Insertion into a sorted list keeps it sorted. */
  lemma {:induction false} InsertByKindSorted(sorted: seq<APIDocumentation>, doc: APIDocumentation)
    requires SortedByKind(sorted)
    ensures SortedByKind(InsertByKind(sorted, doc))
  {
    var r := InsertByKind(sorted, doc);
    if sorted == [] || KindLeq(sorted[|sorted| - 1].kind, doc.kind) {
      forall i | 0 <= i < |sorted| ensures KindLeq(sorted[i].kind, doc.kind) {
        if i < |sorted| - 1 {
          KindLeqTransitive(sorted[i].kind, sorted[|sorted| - 1].kind, doc.kind);
        }
      }
      assert r == sorted + [doc];
    } else {
      var front, last := sorted[..|sorted| - 1], sorted[|sorted| - 1];
      InsertByKindSorted(front, doc);
      InsertByKindElements(front, doc);
      var mid := InsertByKind(front, doc);
      KindLeqTotal(last.kind, doc.kind);
      forall i | 0 <= i < |mid| ensures KindLeq(mid[i].kind, last.kind) {
        if mid[i] != doc {
          var k :| 0 <= k < |front| && mid[i] == front[k];
          assert sorted[k] == mid[i];
        }
      }
      assert r == mid + [last];
    }
  }

  lemma {:induction false} SortByKindSpec(docs: seq<APIDocumentation>)
    ensures multiset(SortByKind(docs)) == multiset(docs)
    ensures SortedByKind(SortByKind(docs))
  {
    SortByKindPermutation(docs);
    SortByKindSorted(docs);
  }

  /** Sorting keeps every document, each as often as it occurs. */
  lemma {:induction false} SortByKindPermutation(docs: seq<APIDocumentation>)
    ensures multiset(SortByKind(docs)) == multiset(docs)
  {
    if docs != [] {
      var front, last := docs[..|docs| - 1], docs[|docs| - 1];
      assert SortByKind(docs) == InsertByKind(SortByKind(front), last);
      SortByKindPermutation(front);
      InsertByKindPermutation(SortByKind(front), last);
      assert docs == front + [last];
    }
  }

  /** Sorting orders the documents by kind. */
  lemma {:induction false} SortByKindSorted(docs: seq<APIDocumentation>)
    ensures SortedByKind(SortByKind(docs))
  {
    if docs != [] {
      var front, last := docs[..|docs| - 1], docs[|docs| - 1];
      assert SortByKind(docs) == InsertByKind(SortByKind(front), last);
      SortByKindSorted(front);
      InsertByKindSorted(SortByKind(front), last);
    }
  }

  /** `s.replace(/\s+/g, "-")`: every maximal run of whitespace becomes one
      hyphen. */
  function CollapseWhitespace(s: string): (r: string)
    ensures forall i | 0 <= i < |r| :: !IsWhitespace(r[i])
    ensures forall i | 0 <= i < |r| :: r[i] == '-' || r[i] in s
    ensures |r| <= |s|
  {
    if s == [] then []
    else
      var front, last := s[..|s| - 1], s[|s| - 1];
      if !IsWhitespace(last) then CollapseWhitespace(front) + [last]
      else if front != [] && IsWhitespace(front[|front| - 1]) then CollapseWhitespace(front)
      else CollapseWhitespace(front) + "-"
  }

  /** Without whitespace the text is left alone. */
  lemma {:induction false} CollapseWhitespaceIdentity(s: string)
    requires forall i | 0 <= i < |s| :: !IsWhitespace(s[i])
    ensures CollapseWhitespace(s) == s
  {
    if s != [] {
      CollapseWhitespaceIdentity(s[..|s| - 1]);
      assert s == s[..|s| - 1] + [s[|s| - 1]];
    }
  }

  /** Appending text that does not start with whitespace appends its own
      collapsed form: the runs of the two parts stay apart. */
  lemma {:induction false} CollapseWhitespaceAppend(x: string, b: string)
    requires b == [] || !IsWhitespace(b[0])
    ensures CollapseWhitespace(x + b) == CollapseWhitespace(x) + CollapseWhitespace(b)
    decreases |b|
  {
    if b != [] {
      var front, last := b[..|b| - 1], b[|b| - 1];
      assert (x + b)[..|x + b| - 1] == x + front;
      assert (x + b)[|x + b| - 1] == last;
      if front == [] {
        assert x + front == x;
        assert CollapseWhitespace(b) == CollapseWhitespace(front) + [last];
      } else {
        CollapseWhitespaceAppend(x, front);
        assert (x + front)[|x + front| - 1] == front[|front| - 1];
        if !IsWhitespace(last) {
          assert CollapseWhitespace(x + b) == CollapseWhitespace(x + front) + [last];
          assert CollapseWhitespace(b) == CollapseWhitespace(front) + [last];
          Regroup(CollapseWhitespace(x), CollapseWhitespace(front), [last]);
        } else if IsWhitespace(front[|front| - 1]) {
          assert CollapseWhitespace(x + b) == CollapseWhitespace(x + front);
          assert CollapseWhitespace(b) == CollapseWhitespace(front);
        } else {
          assert CollapseWhitespace(x + b) == CollapseWhitespace(x + front) + "-";
          assert CollapseWhitespace(b) == CollapseWhitespace(front) + "-";
          Regroup(CollapseWhitespace(x), CollapseWhitespace(front), "-");
        }
      }
    } else {
      assert x + b == x;
    }
  }

  /** A whitespace run after text that does not end in whitespace becomes
      exactly one hyphen, however long the run. */
  lemma {:induction false} CollapseWhitespaceRunEnd(a: string, w: string)
    requires a == [] || !IsWhitespace(a[|a| - 1])
    requires w != [] && AllWhitespace(w)
    ensures CollapseWhitespace(a + w) == CollapseWhitespace(a) + "-"
    decreases |w|
  {
    var front := w[..|w| - 1];
    assert (a + w)[..|a + w| - 1] == a + front;
    assert (a + w)[|a + w| - 1] == w[|w| - 1];
    if front == [] {
      assert a + front == a;
    } else {
      CollapseWhitespaceRunEnd(a, front);
      assert (a + front)[|a + front| - 1] == front[|front| - 1];
    }
  }

  /** The anchor rule: a maximal whitespace run between two pieces of text
      becomes one hyphen, and the text on either side is collapsed on its
      own. */
  lemma CollapseWhitespaceRun(a: string, w: string, b: string)
    requires a == [] || !IsWhitespace(a[|a| - 1])
    requires w != [] && AllWhitespace(w)
    requires b == [] || !IsWhitespace(b[0])
    ensures CollapseWhitespace(a + w + b) == CollapseWhitespace(a) + "-" + CollapseWhitespace(b)
  {
    CollapseWhitespaceRunEnd(a, w);
    CollapseWhitespaceAppend(a + w, b);
  }

  /** One hyphen per run: "Foo  Bar" and "Foo Bar" share an anchor. */
  lemma CollapseWhitespaceExample()
    ensures CollapseWhitespace("a  b") == "a-b"
  {
    assert "a  b"[..3] == "a  ";
    assert "a  "[..2] == "a ";
    assert "a "[..1] == "a";
    assert "a"[..0] == "";
  }

  /** The table-of-contents anchor of a kind. */
  function Anchor(kind: string): (r: string)
    ensures |r| <= |kind|
    ensures forall i | 0 <= i < |r| :: !IsWhitespace(r[i]) && !('A' <= r[i] <= 'Z')
  {
    var lower := ToLowerAscii(kind);
    assert forall i | 0 <= i < |lower| :: !('A' <= lower[i] <= 'Z');
    CollapseWhitespace(lower)
  }

  function TocItems(sorted: seq<APIDocumentation>): seq<seq<Node>> {
    seq(|sorted|, i requires 0 <= i < |sorted| => [Link("#" + Anchor(sorted[i].kind), [Text(sorted[i].kind)])])
  }

  function TocNodes(sorted: seq<APIDocumentation>): seq<Node> {
    if |sorted| > 0 then [BulletList(TocItems(sorted))] else []
  }

  /** `children.filter((child) => child.type !== "footnoteDefinition")` */
  function WithoutFootnoteDefinitions(nodes: seq<Node>): (r: seq<Node>)
    ensures NoDefinitions(r)
    ensures forall n :: n in r <==> n in nodes && !n.FootnoteDefinition?
    ensures NoDefinitions(nodes) ==> r == nodes
    ensures |r| <= |nodes|
  {
    if nodes == [] then []
    else
      var last := nodes[|nodes| - 1];
      WithoutFootnoteDefinitions(nodes[..|nodes| - 1]) + (if last.FootnoteDefinition? then [] else [last])
  }

  lemma {:induction false} WithoutFootnoteDefinitionsAppend(a: seq<Node>, b: seq<Node>)
    ensures WithoutFootnoteDefinitions(a + b) == WithoutFootnoteDefinitions(a) + WithoutFootnoteDefinitions(b)
  {
    if b != [] {
      var front, last := b[..|b| - 1], b[|b| - 1];
      WithoutFootnoteDefinitionsAppend(a, front);
      assert (a + b)[..|a + b| - 1] == a + front;
      var tail: seq<Node> := if last.FootnoteDefinition? then [] else [last];
      assert WithoutFootnoteDefinitions(a + b) == WithoutFootnoteDefinitions(a + front) + tail;
      assert WithoutFootnoteDefinitions(b) == WithoutFootnoteDefinitions(front) + tail;
      Regroup(WithoutFootnoteDefinitions(a), WithoutFootnoteDefinitions(front), tail);
    } else {
      assert a + b == a;
    }
  }

  lemma {:induction false} DefinitionsFiltered(entries: seq<Footnote>)
    ensures WithoutFootnoteDefinitions(FootnoteDefinitions(entries)) == []
  {
    if entries != [] {
      var front := entries[..|entries| - 1];
      DefinitionsFiltered(front);
      assert FootnoteDefinitions(entries)[..|entries| - 1] == FootnoteDefinitions(front);
    }
  }

  /** Each document's body at heading level 2, in the given order. */
  function DocumentBodies(libs: Libraries, sorted: seq<APIDocumentation>): (bodies: seq<seq<Node>>)
    ensures |bodies| == |sorted|
  {
    seq(|sorted|, i requires 0 <= i < |sorted| => DocumentBody(libs, sorted[i], 2))
  }

  /** The bodies one after the other, each with the footnote definitions
      removed. */
  function CombinedSections(bodies: seq<seq<Node>>): seq<Node> {
    if bodies == [] then []
    else CombinedSections(bodies[..|bodies| - 1]) + WithoutFootnoteDefinitions(bodies[|bodies| - 1])
  }

  /** Filtering a document drops exactly its trailing definitions. */
  lemma FilteredBody(body: seq<Node>, entries: seq<Footnote>)
    ensures WithoutFootnoteDefinitions(body + FootnoteDefinitions(entries)) == WithoutFootnoteDefinitions(body)
  {
    WithoutFootnoteDefinitionsAppend(body, FootnoteDefinitions(entries));
    DefinitionsFiltered(entries);
    assert WithoutFootnoteDefinitions(body) + [] == WithoutFootnoteDefinitions(body);
  }

  lemma SectionsStep(bodies: seq<seq<Node>>, i: nat)
    requires i < |bodies|
    ensures CombinedSections(bodies[..i + 1]) == CombinedSections(bodies[..i]) + WithoutFootnoteDefinitions(bodies[i])
  {
    assert bodies[..i + 1][..i] == bodies[..i];
  }

  lemma FootnotesStep(sorted: seq<APIDocumentation>, i: nat)
    requires i < |sorted|
    ensures forall entries :: CombinedFootnotes(entries, sorted[..i + 1]) == DocumentFootnotes(CombinedFootnotes(entries, sorted[..i]), sorted[i])
  {
    assert sorted[..i + 1][..i] == sorted[..i];
  }

  /** The shared footnote map after all documents. */
  function CombinedFootnotes(entries: seq<Footnote>, sorted: seq<APIDocumentation>): seq<Footnote> {
    if sorted == [] then entries
    else DocumentFootnotes(CombinedFootnotes(entries, sorted[..|sorted| - 1]), sorted[|sorted| - 1])
  }

  const CombinedTitle := HeadingText(1, "API Documentation")

  /** The children of the combined root: the title, the table of contents,
      the filtered bodies and the shared definitions. */
  function CombinedChildren(toc: seq<Node>, bodies: seq<seq<Node>>, entries: seq<Footnote>): seq<Node> {
    [CombinedTitle] + toc + CombinedSections(bodies) + FootnoteDefinitions(entries)
  }

  /** The tree renderCombinedDocumentation serializes. */
  function CombinedRoot(libs: Libraries, apiDocs: seq<APIDocumentation>): Node {
    var sorted := SortByKind(apiDocs);
    Root(CombinedChildren(TocNodes(sorted), DocumentBodies(libs, sorted), CombinedFootnotes([], sorted)))
  }

  method RenderCombinedDocumentation(libs: Libraries, apiDocs: seq<APIDocumentation>) returns (markdown: string)
    ensures markdown == libs.toMarkdown(CombinedRoot(libs, apiDocs), Join)
  {
    var footnotes := new FootnotePool();
    var children := [HeadingText(1, "API Documentation")];
    var sortedApiDocs := SortByKind(apiDocs);
    if |sortedApiDocs| > 0 {
      children := children + [BulletList(TocItems(sortedApiDocs))];
    }
    assert children == [CombinedTitle] + TocNodes(sortedApiDocs);
    children := AppendDocumentSections(libs, sortedApiDocs, children, footnotes);
    var definitions := AddFootnoteDefinitions(footnotes);
    children := children + definitions;
    markdown := libs.toMarkdown(Root(children), Join);
  }

  /** The loop of renderCombinedDocumentation: each sorted document's tree
      is built against the shared footnote map, and its children other than
      footnote definitions are pushed after `children`. */
  method AppendDocumentSections(libs: Libraries, sorted: seq<APIDocumentation>, children: seq<Node>, footnotes: FootnotePool)
    returns (result: seq<Node>)
    requires footnotes.Valid()
    modifies footnotes
    ensures footnotes.Valid()
    ensures result == children + CombinedSections(DocumentBodies(libs, sorted))
    ensures footnotes.entries == CombinedFootnotes(old(footnotes.entries), sorted)
  {
    ghost var start := footnotes.entries;
    ghost var bodies := DocumentBodies(libs, sorted);
    result := children;
    for i := 0 to |sorted|
      invariant footnotes.Valid()
      invariant result == children + CombinedSections(bodies[..i])
      invariant footnotes.entries == CombinedFootnotes(start, sorted[..i])
    {
      var apiAST := BuildDocumentASTWithFootnotes(libs, sorted[i], 2, footnotes);
      var kept := WithoutFootnoteDefinitions(apiAST.children);
      FilteredBody(bodies[i], footnotes.entries);
      SectionsStep(bodies, i);
      FootnotesStep(sorted, i);
      Regroup(children, CombinedSections(bodies[..i]), kept);
      result := result + kept;
    }
    assert bodies[..|sorted|] == bodies;
    assert sorted[..|sorted|] == sorted;
  }

  /** The combined document lists every API in the table of contents, in
      kind order, each under a whitespace-free anchor; the table is there
      iff some API is. */
  lemma CombinedContents(apiDocs: seq<APIDocumentation>)
    ensures var sorted := SortByKind(apiDocs);
            && (|TocNodes(sorted)| == 1 <==> |apiDocs| > 0)
            && |TocItems(sorted)| == |apiDocs|
            && multiset(sorted) == multiset(apiDocs)
            && SortedByKind(sorted)
            && (forall i | 0 <= i < |sorted| :: NoWhitespace(Anchor(sorted[i].kind)))
  {
    var sorted := SortByKind(apiDocs);
    SortByKindSpec(apiDocs);
    assert |sorted| == |multiset(sorted)| == |multiset(apiDocs)| == |apiDocs|;
  }

  /** The combined tree opens with the title and keeps all footnote
      definitions together at the very end. */
  lemma CombinedDefinitionsLast(libs: Libraries, apiDocs: seq<APIDocumentation>)
    ensures var children := CombinedRoot(libs, apiDocs).children;
            var definitions := FootnoteDefinitions(CombinedFootnotes([], SortByKind(apiDocs)));
            && children[0] == CombinedTitle
            && (forall i | 0 <= i < |children| :: children[i].FootnoteDefinition? <==> i >= |children| - |definitions|)
  {
    var sorted := SortByKind(apiDocs);
    ChildrenDefinitionsLast(TocNodes(sorted), DocumentBodies(libs, sorted), CombinedFootnotes([], sorted));
  }

  lemma ChildrenDefinitionsLast(toc: seq<Node>, bodies: seq<seq<Node>>, entries: seq<Footnote>)
    requires |toc| <= 1 && (toc != [] ==> toc[0].List?)
    ensures var children := CombinedChildren(toc, bodies, entries);
            && children[0] == CombinedTitle
            && (forall i | 0 <= i < |children| :: children[i].FootnoteDefinition? <==> i >= |children| - |entries|)
  {
    var head := [CombinedTitle] + toc;
    var sections := CombinedSections(bodies);
    NoDefinitionsInSections(bodies);
    assert NoDefinitions(head);
    NoDefinitionsAppend(head, sections);
    DefinitionsLast(head + sections, FootnoteDefinitions(entries));
  }

  predicate NoWhitespace(s: string) {
    forall i | 0 <= i < |s| :: !IsWhitespace(s[i])
  }

  /** No footnote definition among the nodes. */
  predicate NoDefinitions(nodes: seq<Node>) {
    forall i | 0 <= i < |nodes| :: !nodes[i].FootnoteDefinition?
  }

  /** Content without definitions followed by definitions only: a node is a
      definition iff it lies in the trailing block. */
  lemma DefinitionsLast(content: seq<Node>, definitions: seq<Node>)
    requires NoDefinitions(content)
    requires forall i | 0 <= i < |definitions| :: definitions[i].FootnoteDefinition?
    ensures forall i | 0 <= i < |content + definitions| ::
              (content + definitions)[i].FootnoteDefinition? <==> i >= |content|
  {
    forall i | 0 <= i < |content + definitions|
      ensures (content + definitions)[i].FootnoteDefinition? <==> i >= |content|
    {
      if i < |content| {
        assert (content + definitions)[i] == content[i];
      } else {
        assert (content + definitions)[i] == definitions[i - |content|];
      }
    }
  }

  lemma NoDefinitionsAppend(a: seq<Node>, b: seq<Node>)
    requires NoDefinitions(a) && NoDefinitions(b)
    ensures NoDefinitions(a + b)
  {
    forall i | 0 <= i < |a + b| ensures !(a + b)[i].FootnoteDefinition? {
      if i < |a| {
        assert (a + b)[i] == a[i];
      } else {
        assert (a + b)[i] == b[i - |a|];
      }
    }
  }

  lemma {:induction false} NoDefinitionsInSections(bodies: seq<seq<Node>>)
    ensures NoDefinitions(CombinedSections(bodies))
  {
    if bodies != [] {
      var front := bodies[..|bodies| - 1];
      NoDefinitionsInSections(front);
      NoDefinitionsAppend(CombinedSections(front), WithoutFootnoteDefinitions(bodies[|bodies| - 1]));
    }
  }

  /** The shared map holds one entry per distinct formula across all
      documents, so a formula used by two APIs is defined once. */
  lemma {:induction false} CombinedFootnotesDistinct(entries: seq<Footnote>, sorted: seq<APIDocumentation>)
    requires DistinctIds(entries)
    ensures DistinctIds(CombinedFootnotes(entries, sorted))
    ensures forall id :: Lookup(CombinedFootnotes(entries, sorted), id).Some? <==>
              (Lookup(entries, id).Some? || exists i | 0 <= i < |sorted| :: DocumentRegisters(sorted[i], id))
  {
    if sorted != [] {
      var front := sorted[..|sorted| - 1];
      var last := sorted[|sorted| - 1];
      CombinedFootnotesDistinct(entries, front);
      var mid := CombinedFootnotes(entries, front);
      RegisteredIds(mid, last.specFields);
      RegisteredIds(RegisterFields(mid, last.specFields), last.statusFields);
      forall id ensures Lookup(CombinedFootnotes(entries, sorted), id).Some? <==>
                        (Lookup(entries, id).Some? || exists i | 0 <= i < |sorted| :: DocumentRegisters(sorted[i], id))
      {
        DocumentRegistersSplit(sorted, front, id);
      }
    }
  }

  lemma DocumentRegistersSplit(sorted: seq<APIDocumentation>, front: seq<APIDocumentation>, id: string)
    requires sorted != [] && front == sorted[..|sorted| - 1]
    ensures (exists i | 0 <= i < |sorted| :: DocumentRegisters(sorted[i], id))
            <==> (exists i | 0 <= i < |front| :: DocumentRegisters(front[i], id)) || DocumentRegisters(sorted[|sorted| - 1], id)
  {
    var last := sorted[|sorted| - 1];
    if exists i | 0 <= i < |sorted| :: DocumentRegisters(sorted[i], id) {
      var i :| 0 <= i < |sorted| && DocumentRegisters(sorted[i], id);
      if i < |front| {
        assert sorted[i] == front[i];
      } else {
        assert sorted[i] == last;
      }
    }
    if exists i | 0 <= i < |front| :: DocumentRegisters(front[i], id) {
      var i :| 0 <= i < |front| && DocumentRegisters(front[i], id);
      assert sorted[i] == front[i];
    }
    if DocumentRegisters(last, id) {
      assert sorted[|sorted| - 1] == last;
    }
  }
}
