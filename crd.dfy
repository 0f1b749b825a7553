/** The input side of the pipeline: an OpenAPI v3 schema tree as it sits in a
    CustomResourceDefinition, the definition itself, and the flat field
    descriptor the schema walker produces (ts/models/crd.ts). */
module Crd {
  import opened JsValues

  /** One entry of `x-kubernetes-validations`: a CEL rule and its message. */
  datatype ValidationRule = ValidationRule(rule: string, message: Option<string>)

  /** An OpenAPI v3 schema node. `properties` keeps declaration order; an
      absent `properties` (or `required`) is the empty sequence, since the
      source treats a missing and an empty one alike. `typ` is the schema's
      `type` keyword. */
  datatype Schema = Schema(
    typ: Option<string>,
    description: Option<string>,
    properties: seq<Property>,
    required: seq<string>,
    items: Option<Schema>,
    enumValues: Option<seq<Value>>,
    format: Option<string>,
    pattern: Option<string>,
    minimum: Option<int>,
    maximum: Option<int>,
    minLength: Option<int>,
    maxLength: Option<int>,
    minItems: Option<int>,
    maxItems: Option<int>,
    uniqueItems: Option<bool>,
    defaultValue: Option<Value>,
    example: Option<Value>,
    nullable: Option<bool>,
    oneOf: SchemaList,
    anyOf: SchemaList,
    allOf: SchemaList,
    validations: Option<seq<ValidationRule>>)

  /** `oneOf`/`anyOf`/`allOf`: absent, or a (possibly empty) list of members.
      Unlike `properties`, absent and empty differ here. */
  datatype SchemaList = Absent | Listed(schemas: seq<Schema>)

  /** One `name: schema` entry of `properties`. */
  datatype Property = Property(name: string, schema: Schema)

  datatype Scope = Namespaced | Cluster

  datatype Names = Names(plural: string, singular: string, kind: string, shortNames: Option<seq<string>>)

  datatype CRDVersion = CRDVersion(name: string, served: bool, storage: bool, schema: Schema)

  datatype CRDSpec = CRDSpec(group: string, version: string, scope: Scope, names: Names, versions: seq<CRDVersion>)

  datatype CRDMetadata = CRDMetadata(name: string)

  datatype CustomResourceDefinition = CustomResourceDefinition(
    apiVersion: string, kind: string, metadata: CRDMetadata, spec: CRDSpec)

  /** One flattened schema node: its dotted path, resolved type, whether the
      immediate parent lists it as required, and the copied attributes. */
  datatype FieldInfo = FieldInfo(
    path: string,
    fieldType: string,
    description: Option<string>,
    required: bool,
    validation: Option<seq<ValidationRule>>,
    example: Option<Value>,
    enumValues: Option<seq<Value>>,
    format: Option<string>,
    pattern: Option<string>,
    minimum: Option<int>,
    maximum: Option<int>,
    minLength: Option<int>,
    maxLength: Option<int>,
    minItems: Option<int>,
    maxItems: Option<int>,
    uniqueItems: Option<bool>,
    defaultValue: Option<Value>,
    nullable: Option<bool>)
}
