/** Parsed protobuf definitions and the modifications a comparison of two of them can find. */
module ProtobufModel {
  import opened SchemaModels

  datatype Label = OPTIONAL | REQUIRED | REPEATED

  datatype ScalarType =
    | BOOL | BYTES | DOUBLE | FLOAT | FIXED32 | FIXED64 | INT32 | INT64
    | SFIXED32 | SFIXED64 | SINT32 | SINT64 | STRING | UINT32 | UINT64
  {
    function Name(): string {
      match this
      case BOOL => "bool" case BYTES => "bytes" case DOUBLE => "double" case FLOAT => "float"
      case FIXED32 => "fixed32" case FIXED64 => "fixed64" case INT32 => "int32" case INT64 => "int64"
      case SFIXED32 => "sfixed32" case SFIXED64 => "sfixed64" case SINT32 => "sint32" case SINT64 => "sint64"
      case STRING => "string" case UINT32 => "uint32" case UINT64 => "uint64"
    }

    function Kind(): CompatibilityKind {
      match this
      case INT32 | INT64 | UINT32 | UINT64 | BOOL => VARIANT
      case SINT32 | SINT64 => SVARIANT
      case DOUBLE => KIND_DOUBLE
      case FIXED64 | SFIXED64 => KIND_FIXED64
      case FLOAT => KIND_FLOAT
      case FIXED32 | SFIXED32 => KIND_FIXED32
      case STRING | BYTES => LENGTH_DELIMITED
    }
  }

  datatype CompatibilityKind = VARIANT | SVARIANT | KIND_FIXED64 | LENGTH_DELIMITED | KIND_FIXED32 | KIND_DOUBLE
      | KIND_FLOAT

  /** `ProtoType`, as `ProtoType.get2` makes it of a type name. */
  datatype ProtoType = Scalar(scalar: ScalarType) | Named(name: string) | MapOf(key: ProtoType, value: ProtoType) {
    function Name(): string {
      match this
      case Scalar(s) => s.Name()
      case Named(n) => n
      case MapOf(k, v) => "map<" + k.Name() + ", " + v.Name() + ">"
    }
  }

  datatype FieldElement = FieldElement(name: string, tag: nat, fieldLabel: Option<Label>, elementType: ProtoType)

  datatype OneOfElement = OneOfElement(name: string, fields: seq<FieldElement>)

  datatype EnumConstant = EnumConstant(name: string, tag: nat)

  /** `ident` stands for what `==` compares of two messages: location, name, documentation, options and
      nested types. Different messages may have the same one. */
  datatype TypeElement =
    | MessageElement(ident: int, name: string, fields: seq<FieldElement>, oneOfs: seq<OneOfElement>,
      nested: seq<TypeElement>)
    | EnumElement(name: string, constants: seq<EnumConstant>)

  /** What the type tables hold. Message options are option objects, which no string equals, so the test for a
      map entry never succeeds and there is only this kind of record. */
  datatype TypeRecord = TypeRecord(packageName: Option<string>, element: TypeElement)

  function OrEmpty(package: Option<string>): string { if package.Some? then package.value else "" }

  datatype Syntax = PROTO_2 | PROTO_3

  /** A parsed file with the files its references lead to, in order; none, and not `referring`, when it has no
      references. */
  datatype ProtoFile = ProtoFile(
    packageName: Option<string>, syntax: Option<Syntax>, types: seq<TypeElement>, referring: bool,
      dependencies: seq<ProtoFile>)
  {
    function Package(): string { OrEmpty(packageName) }
  }

  datatype Modification =
    | PACKAGE_ALTER | SYNTAX_ALTER | MESSAGE_ADD | MESSAGE_DROP | MESSAGE_MOVE
    | ENUM_CONSTANT_ADD | ENUM_CONSTANT_ALTER | ENUM_CONSTANT_DROP | ENUM_ADD | ENUM_DROP | TYPE_ALTER
    | FIELD_ADD | FIELD_DROP | FIELD_MOVE | FIELD_LABEL_ALTER | FIELD_NAME_ALTER | FIELD_KIND_ALTER
    | FIELD_TYPE_ALTER | FIELD_TAG_ALTER
    | ONE_OF_ADD | ONE_OF_DROP | ONE_OF_MOVE | ONE_OF_FIELD_ADD | ONE_OF_FIELD_DROP | ONE_OF_FIELD_MOVE
    | FEW_FIELDS_CONVERTED_TO_ONE_OF
  {
    predicate IsCompatible() {
      this !in {MESSAGE_MOVE, MESSAGE_DROP, FIELD_LABEL_ALTER, FIELD_KIND_ALTER, FIELD_TYPE_ALTER, FIELD_TAG_ALTER,
                ONE_OF_FIELD_DROP, FEW_FIELDS_CONVERTED_TO_ONE_OF}
    }
  }

  datatype ModificationRecord = ModificationRecord(modification: Modification, path: string)

  /** `CompareResult.is_compatible` */
  predicate AllCompatible(found: seq<ModificationRecord>) {
    forall i :: 0 <= i < |found| ==> found[i].modification.IsCompatible()
  }
}
