/** Schemas, references and compatibility modes (schema_models.py, schema_references.py,
    compatibility/__init__.py and compatibility/schema_compatibility.py). */
module SchemaModels {

  datatype Option<+T> = None | Some(value: T)

  type Subject = string

  /** The alias for the latest version, `Version.MINUS_1_VERSION_TAG`. */
  const LATEST: int := -1

  datatype Reference = Reference(name: string, subject: Subject, version: int)

  datatype SchemaType = Avro | JsonSchema | Protobuf

  /** Two schemas are equal when type, normalised text and references are. An absent
      reference list and an empty one are the same value here. */
  datatype TypedSchema = TypedSchema(schemaType: SchemaType, text: string, references: seq<Reference>) {
    /** The digest covers the text and the references and leaves the schema type out.
        The digest is taken to be collision free, so it is what it is computed from. */
    function Fp(): Fingerprint { Fingerprint(text, references) }
  }

  datatype Fingerprint = Fingerprint(text: string, references: seq<Reference>)

  /** What a subject stores for one version. The reference list of the record is the one of its schema. */
  datatype SchemaVersion = SchemaVersion(version: int, deleted: bool, id: int, schema: TypedSchema)

  datatype Mode =
    | BACKWARD | BACKWARD_TRANSITIVE
    | FORWARD | FORWARD_TRANSITIVE
    | FULL | FULL_TRANSITIVE
    | NONE
  {
    predicate IsTransitive() { BACKWARD_TRANSITIVE? || FORWARD_TRANSITIVE? || FULL_TRANSITIVE? }
  }

  /** `canRead(reader, writer)`: the verdict of the checker of the schema's format, a parameter of the model. */
  type CanRead = (TypedSchema, TypedSchema) -> bool

  predicate Compatible(canRead: CanRead, mode: Mode, first: TypedSchema, second: TypedSchema) {
    if mode.NONE? then true
    else if first.schemaType != second.schemaType then false
    else match mode
         case BACKWARD | BACKWARD_TRANSITIVE => canRead(second, first)
         case FORWARD | FORWARD_TRANSITIVE => canRead(first, second)
         case _ => canRead(second, first) && canRead(first, second)
  }
}
