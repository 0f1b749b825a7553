/** The output side of the converter: one documentation record per field and
    per CRD, and the document model that collects them
    (ts/models/document.ts). */
module Document {
  import opened JsValues
  import opened Crd

  /** A field as documented: the immutability rule, if any, is held apart in
      `immutable` and the single `example` is promoted to `examples`. */
  datatype FieldDocumentation = FieldDocumentation(
    fieldPath: string,
    fieldType: string,
    description: Option<string>,
    required: bool,
    validationRules: seq<ValidationRule>,
    examples: seq<Value>,
    enumValues: Option<seq<Value>>,
    format: Option<string>,
    pattern: Option<string>,
    minimum: Option<int>,
    maximum: Option<int>,
    minLength: Option<int>,
    maxLength: Option<int>,
    minItems: Option<int>,
    maxItems: Option<int>,
    uniqueItems: Option<bool>,
    defaultValue: Option<Value>,
    nullable: Option<bool>,
    immutable: Option<string>)

  datatype Metadata = Metadata(shortNames: Option<seq<string>>, plural: string, singular: string)

  datatype APIDocumentation = APIDocumentation(
    title: string,
    kind: string,
    group: string,
    version: string,
    scope: Scope,
    description: Option<string>,
    specFields: seq<FieldDocumentation>,
    statusFields: seq<FieldDocumentation>,
    metadata: Option<Metadata>)

  /** Milliseconds since the epoch, as a JavaScript `Date` holds them. */
  type Timestamp = int

  datatype DocumentModel = DocumentModel(apiDocs: seq<APIDocumentation>, generatedAt: Timestamp, sourceFiles: seq<string>)
}
