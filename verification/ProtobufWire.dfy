/** How scalar values are written on the wire, after "Encoding" of the Protocol Buffers documentation, and that the
    kinds of the comparison are exactly the types that read each other's values. */
module ProtobufWire {
  import opened Dicts
  import opened SchemaModels
  import opened ProtobufModel
  import opened ProtobufCompare
  import opened ProtobufTables
  import opened ProtobufVerdict

  const TWO31: int := 0x8000_0000
  const TWO32: int := 0x1_0000_0000
  const TWO63: int := 0x8000_0000_0000_0000
  const TWO64: int := 0x1_0000_0000_0000_0000

  /** The wire types VARINT, I32, I64 and LEN with what they carry. */
  datatype Payload = Varint(n: int) | I32(n: int) | I64(n: int) | Len(text: string)

  /** A boolean is the number 0 or 1. */
  datatype Value = Number(n: int) | Text(s: string)

  // ---------------------------------------------------------------- writing and reading

  /** The values of the type. Of floating-point numbers zero and one are enough to tell formats apart. */
  predicate Holds(s: ScalarType, v: Value) {
    match s
    case INT32 | SINT32 | SFIXED32 => v.Number? && -TWO31 <= v.n < TWO31
    case INT64 | SINT64 | SFIXED64 => v.Number? && -TWO63 <= v.n < TWO63
    case UINT32 | FIXED32 => v.Number? && 0 <= v.n < TWO32
    case UINT64 | FIXED64 => v.Number? && 0 <= v.n < TWO64
    case BOOL | FLOAT | DOUBLE => v.Number? && 0 <= v.n <= 1
    case STRING => v.Text? && forall i :: 0 <= i < |v.s| ==> v.s[i] as int < 128
    case BYTES => v.Text? && forall i :: 0 <= i < |v.s| ==> v.s[i] as int < 256
  }

  /** Negative numbers in 64 bits, as two's complement. */
  function Wrapped(n: int, size: int): int { if n < 0 then n + size else n }

  function ZigZag(n: int): int { if n < 0 then -2 * n - 1 else 2 * n }

  const FLOAT_ONE := 0x3F80_0000
  const DOUBLE_ONE := 0x3FF0_0000_0000_0000

  function Write(s: ScalarType, v: Value): Payload
    requires Holds(s, v)
  {
    match s
    case INT32 | INT64 | UINT32 | UINT64 | BOOL => Varint(Wrapped(v.n, TWO64))
    case SINT32 | SINT64 => Varint(ZigZag(v.n))
    case FIXED32 | SFIXED32 => I32(Wrapped(v.n, TWO32))
    case FIXED64 | SFIXED64 => I64(Wrapped(v.n, TWO64))
    case FLOAT => I32(if v.n == 0 then 0 else FLOAT_ONE)
    case DOUBLE => I64(if v.n == 0 then 0 else DOUBLE_ONE)
    case STRING | BYTES => Len(v.s)
  }

  function Signed(n: int, size: int): int { if n >= size / 2 then n - size else n }

  function UnZigZag(n: int): int { if n % 2 == 0 then n / 2 else -((n + 1) / 2) }

  /** What a reader that expects the type makes of a payload; nothing if the wire type is another. */
  function Read(s: ScalarType, p: Payload): Option<Value> {
    match (s, p)
    case (INT32, Varint(n)) => Some(Number(Signed(n % TWO32, TWO32)))
    case (INT64, Varint(n)) => Some(Number(Signed(n % TWO64, TWO64)))
    case (UINT32, Varint(n)) => Some(Number(n % TWO32))
    case (UINT64, Varint(n)) => Some(Number(n % TWO64))
    case (BOOL, Varint(n)) => Some(Number(if n == 0 then 0 else 1))
    case (SINT32, Varint(n)) => Some(Number(UnZigZag(n)))
    case (SINT64, Varint(n)) => Some(Number(UnZigZag(n)))
    case (FIXED32, I32(n)) => Some(Number(n))
    case (SFIXED32, I32(n)) => Some(Number(Signed(n, TWO32)))
    case (FIXED64, I64(n)) => Some(Number(n))
    case (SFIXED64, I64(n)) => Some(Number(Signed(n, TWO64)))
    case (FLOAT, I32(n)) => if n == 0 then Some(Number(0)) else if n == FLOAT_ONE then Some(Number(1)) else None
    case (DOUBLE, I64(n)) => if n == 0 then Some(Number(0)) else if n == DOUBLE_ONE then Some(Number(1)) else None
    case (STRING, Len(text)) => Some(Text(text))
    case (BYTES, Len(text)) => Some(Text(text))
    case _ => None
  }

  /** A value that is written as `s` and read as `t` comes back. */
  predicate ComesBack(s: ScalarType, t: ScalarType, v: Value)
    requires Holds(s, v)
  {
    Read(t, Write(s, v)) == Some(v)
  }

  /** There are values of both types, and each comes back either way. */
  ghost predicate Interchangeable(s: ScalarType, t: ScalarType) {
    && (exists v :: Holds(s, v) && Holds(t, v))
    && forall v :: Holds(s, v) && Holds(t, v) ==> ComesBack(s, t, v) && ComesBack(t, s, v)
  }

  // ---------------------------------------------------------------- kinds are formats

  lemma VarintBack(s: ScalarType, t: ScalarType, v: Value)
    requires s in {INT32, INT64, UINT32, UINT64, BOOL} && t in {INT32, INT64, UINT32, UINT64, BOOL}
    requires Holds(s, v) && Holds(t, v)
    ensures ComesBack(s, t, v)
  {
    var n := v.n;
    if n < 0 {
      assert (n + TWO64) % TWO64 == n + TWO64;
      if t == INT32 { LowBits(n); }
    }
  }

  /** The low 32 bits of a negative number are those it has in 32 bits. */
  lemma LowBits(n: int)
    requires -TWO31 <= n < 0
    ensures (n + TWO64) % TWO32 == n + TWO32
  {
    assert n + TWO64 == (n + TWO32) + TWO32 * (TWO32 - 1);
  }

  lemma SameKind(s: ScalarType, t: ScalarType, v: Value)
    requires s.Kind() == t.Kind() && Holds(s, v) && Holds(t, v)
    ensures ComesBack(s, t, v)
  {
    if s.Kind() == VARIANT { VarintBack(s, t, v); }
  }

  predicate Textual(s: ScalarType) { s == STRING || s == BYTES }

  lemma SomethingShared(s: ScalarType, t: ScalarType)
    requires Textual(s) == Textual(t)
    ensures exists v :: Holds(s, v) && Holds(t, v)
    ensures !Textual(s) ==> Holds(s, Number(1)) && Holds(t, Number(1))
  {
    var v := if Textual(s) then Text("") else Number(1);
    assert Holds(s, v) && Holds(t, v);
  }

  lemma OtherKind(s: ScalarType, t: ScalarType)
    requires s.Kind() != t.Kind() && !Textual(s) && !Textual(t)
    ensures Holds(s, Number(1)) && Holds(t, Number(1))
    ensures !ComesBack(s, t, Number(1)) || !ComesBack(t, s, Number(1))
  {
  }

  lemma KindsAreTextual(s: ScalarType, t: ScalarType)
    requires s.Kind() == t.Kind()
    ensures Textual(s) == Textual(t)
  {
  }

  lemma NothingShared(s: ScalarType, t: ScalarType, v: Value)
    requires Textual(s) != Textual(t)
    ensures !(Holds(s, v) && Holds(t, v))
  {
  }

  lemma SameKindInterchangeable(s: ScalarType, t: ScalarType)
    requires s.Kind() == t.Kind()
    ensures Interchangeable(s, t)
  {
    KindsAreTextual(s, t);
    SomethingShared(s, t);
    forall v | Holds(s, v) && Holds(t, v) ensures ComesBack(s, t, v) && ComesBack(t, s, v) {
      SameKind(s, t, v);
      SameKind(t, s, v);
    }
  }

  lemma OtherKindNot(s: ScalarType, t: ScalarType)
    requires s.Kind() != t.Kind()
    ensures !Interchangeable(s, t)
  {
    if Textual(s) != Textual(t) {
      forall v ensures !(Holds(s, v) && Holds(t, v)) { NothingShared(s, t, v); }
    } else {
      BothTextual(s, t);
      OtherKind(s, t);
    }
  }

  /** Two scalar types are of one kind if and only if they read each other's values. */
  lemma KindsAreFormats(s: ScalarType, t: ScalarType)
    ensures s.Kind() == t.Kind() <==> Interchangeable(s, t)
  {
    if s.Kind() == t.Kind() { SameKindInterchangeable(s, t); } else { OtherKindNot(s, t); }
  }

  lemma BothTextual(s: ScalarType, t: ScalarType)
    requires s.Kind() != t.Kind() && Textual(s) == Textual(t)
    ensures !Textual(s) && !Textual(t)
  {
  }

  // ---------------------------------------------------------------- the comparison

  function OneField(l: Option<Label>, s: ScalarType): TypeElement {
    MessageElement(1, "M", [FieldElement("n", 1, l, Scalar(s))], [], [])
  }

  function OneFile(l: Option<Label>, s: ScalarType): ProtoFile { ProtoFile(None, None, [OneField(l, s)], false, []) }

  lemma OnlyField(f: FieldElement)
    ensures ByTag([f]).entries == map[f.tag := f] && ByFieldName([f]) == map[f.name := f]
  {
    assert [f][..0] == [];
    assert ByTag([f]) == Empty().Put(f.tag, f);
  }

  lemma OneMessageBroken(l: Option<Label>, s: ScalarType, t: ScalarType, l': Option<Label>)
    ensures MessageBroken(OneField(l, s), OneField(l', t)) <==> KindBroken(l, s.Kind(), t.Kind(), l')
  {
    var a, b := OneField(l, s), OneField(l', t);
    var f, g := a.fields[0], b.fields[0];
    OnlyField(f);
    OnlyField(g);
    assert !InOneOf(b.oneOfs, 1);
    assert FieldBroken(f, g) <==> KindBroken(l, s.Kind(), t.Kind(), l');
    assert forall n: nat :: PlainBroken(a, b, n) <==> n == 1 && FieldBroken(f, g);
    assert !FewConverted(a, b);
    assert forall n: string :: !SharedOneOfBroken(a, b, n);
    assert !Broken(a.nested, b.nested);
    if FieldBroken(f, g) { assert PlainBroken(a, b, 1); }
  }

  lemma OnlyType(e: TypeElement)
    ensures TypesByName([e]).entries == map[e.name := e]
  {
    assert [e][..0] == [];
    assert TypesByName([e]) == Empty().Put(e.name, e);
  }

  lemma OneFileBroken(l: Option<Label>, s: ScalarType, t: ScalarType, l': Option<Label>)
    ensures Broken([OneField(l, s)], [OneField(l', t)]) <==> MessageBroken(OneField(l, s), OneField(l', t))
  {
    var selfs, others := [OneField(l, s)], [OneField(l', t)];
    OnlyType(OneField(l, s));
    OnlyType(OneField(l', t));
    assert forall n: string :: NameBroken(selfs, others, 0, n) <==> n == "M" && MessageBroken(selfs[0], others[0]);
    if MessageBroken(selfs[0], others[0]) { assert NameBroken(selfs, others, 0, "M"); }
  }

  lemma OneFileProper(l: Option<Label>, s: ScalarType)
    ensures FileProper(OneFile(l, s)) && AllUnlocked({}, OneFile(l, s).types) && AllSimple(OneFile(l, s).types)
  {
    forall t: ScalarType ensures t.Name() != "M" { NameLong(t); }
  }

  lemma OneFileVerdict(f: ProtoFile, g: ProtoFile, l: Option<Label>, s: ScalarType, t: ScalarType, l': Option<Label>)
    requires f == OneFile(l, s) && g == OneFile(l', t)
    ensures AllCompatible(CompareFiles(f, g)) <==> !Broken([OneField(l, s)], [OneField(l', t)])
  {
    OneFileProper(l, s);
    OneFileProper(l', t);
    FileVerdict(f, g);
  }

  lemma NameLong(s: ScalarType)
    ensures |s.Name()| >= 4
  {
    match s case _ => {}
  }

  /** Two files with one scalar field each, for all types and labels: they are called compatible if and only if the
      types read each other's values and the label is the same, which for strings and bytes it need not be. */
  lemma ScalarFieldsIff(l: Option<Label>, s: ScalarType, t: ScalarType, l': Option<Label>)
    ensures AllCompatible(CompareFiles(OneFile(l, s), OneFile(l', t))) <==>
            Interchangeable(s, t) && (l == l' || s == STRING || s == BYTES)
  {
    OneFileVerdict(OneFile(l, s), OneFile(l', t), l, s, t, l');
    OneFileBroken(l, s, t, l');
    OneMessageBroken(l, s, t, l');
    KindBrokenMeans(l, s, t, l');
  }

  lemma KindBrokenMeans(l: Option<Label>, s: ScalarType, t: ScalarType, l': Option<Label>)
    ensures !KindBroken(l, s.Kind(), t.Kind(), l') <==>
            Interchangeable(s, t) && (l == l' || s == STRING || s == BYTES)
  {
    KindsAreFormats(s, t);
    assert s.Kind() == LENGTH_DELIMITED <==> s == STRING || s == BYTES;
  }

  /** An enum is written as an int32: a field that becomes an enum, or stops being one, is compatible if and only if the
      other type reads such numbers and the label is kept. */
  lemma EnumIsNumber(c: Ctx, l: Option<Label>, t: ProtoType, s: ScalarType, l': Option<Label>)
    requires Fit(c) && t.Named? && AllCompatible(c.found)
    ensures NamesEnum(SelfName(c, t), c.selfTypes) ==>
              (AllCompatible(CompareType(c, l, t, Scalar(s), l').found) <==> Interchangeable(INT32, s) && l == l')
    ensures NamesEnum(OtherName(c, t), c.otherTypes) ==>
              (AllCompatible(CompareType(c, l, Scalar(s), t, l').found) <==> Interchangeable(s, INT32) && l == l')
  {
    KindsAreFormats(INT32, s);
    KindsAreFormats(s, INT32);
    NotNamed(c, Scalar(s));
    NamedTypeVerdict(c, l, t, Scalar(s), l');
    NamedTypeVerdict(c, l, Scalar(s), t, l');
  }
}
