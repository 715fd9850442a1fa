/** What `write_value` (serialization.py) hands to the Avro writer: the value itself if it validates against the schema,
    and the flattened value otherwise. */
module AvroWrite {
  import opened JsonValues
  import opened SchemaModels
  import opened FlattenUnions

  // ---------------------------------------------------------------- validation

  /** `avro.io.validate`: some branch of a union, every item, every entry, every field of a record and no other key.
      Avro has no union directly inside a union. */
  predicate Validates(env: Env, schema: Schema, value: Json)
    decreases value, if Deref(env, schema).Union? then 1 else 0
  {
    match (Deref(env, schema), value)
    case (Union(branches), _) =>
      exists i :: 0 <= i < |branches| && !Deref(env, branches[i]).Union? && Validates(env, branches[i], value)
    case (Record(_, fields), Obj(entries)) =>
      && (forall i :: 0 <= i < |fields| ==> fields[i].name in entries || TakesNull(env, fields[i].schema))
      && (forall k :: k in entries ==>
            FieldSchema(fields, k).Some? && Validates(env, FieldSchema(fields, k).value, entries[k]))
    case (Array(items), List(vs)) => forall i :: 0 <= i < |vs| ==> Validates(env, items, vs[i])
    case (Map(values), Obj(entries)) => forall k :: k in entries ==> Validates(env, values, entries[k])
    case (Primitive(_), _) => LeafFits(env, Deref(env, schema), value)
    case (Named(_), _) => LeafFits(env, Deref(env, schema), value)
    case _ => false
  }

  /** No branch of a union is taken by a union. */
  predicate SingleUnions(d: Datum) {
    match d
    case Scalar(_) => true
    case RecordOf(m) => forall k :: k in m ==> SingleUnions(m[k])
    case UnionOf(_, v) => !v.UnionOf? && SingleUnions(v)
    case ArrayOf(vs) => forall i :: 0 <= i < |vs| ==> SingleUnions(vs[i])
    case MapOf(m) => forall k :: k in m ==> SingleUnions(m[k])
  }

  lemma {:induction false} PlainValidates(env: Env, schema: Schema, d: Datum)
    requires Conforms(env, schema, d) && SingleUnions(d)
    ensures Validates(env, schema, Plain(d))
    decreases d
  {
    var s := Deref(env, schema);
    match d
    case Scalar(_) =>
    case RecordOf(m) =>
      forall k | k in m ensures Validates(env, FieldSchema(s.fields, k).value, Plain(m[k])) {
        PlainValidates(env, FieldSchema(s.fields, k).value, m[k]);
      }
    case UnionOf(i, v) =>
      PlainValidates(env, s.branches[i], v);
      assert !Deref(env, s.branches[i]).Union?;
    case ArrayOf(vs) =>
      forall i | 0 <= i < |vs| ensures Validates(env, s.items, Plain(vs[i])) { PlainValidates(env, s.items, vs[i]); }
    case MapOf(m) =>
      forall k | k in m ensures Validates(env, s.values, Plain(m[k])) { PlainValidates(env, s.values, m[k]); }
  }

  /** `d` is a value of the schema that the program holds as `value`. */
  ghost predicate Reads(env: Env, schema: Schema, value: Json, d: Datum) {
    Conforms(env, schema, d) && SingleUnions(d) && Plain(d) == value
  }

  lemma {:induction false} ValidatedIsPlain(env: Env, schema: Schema, value: Json) returns (d: Datum)
    requires Validates(env, schema, value)
    ensures Reads(env, schema, value, d)
    decreases value, if Deref(env, schema).Union? then 1 else 0
  {
    match (Deref(env, schema), value)
    case (Union(branches), _) =>
      var i :| 0 <= i < |branches| && !Deref(env, branches[i]).Union? && Validates(env, branches[i], value);
      var v := ValidatedIsPlain(env, branches[i], value);
      d := UnionOf(i, v);
    case (Record(_, fields), Obj(entries)) => d := RecordIsPlain(env, schema, fields, entries);
    case (Array(items), List(vs)) => d := ArrayIsPlain(env, schema, items, vs);
    case (Map(values), Obj(entries)) => d := MapIsPlain(env, schema, values, entries);
    case (_, _) => d := Scalar(value);
  }

  lemma RecordIsPlain(env: Env, schema: Schema, fields: seq<Field>, entries: map<string, Json>) returns (d: Datum)
    requires Deref(env, schema).Record? && Deref(env, schema).fields == fields && Validates(env, schema, Obj(entries))
    ensures Reads(env, schema, Obj(entries), d)
    decreases Obj(entries), 0, 0
  {
    var m: map<string, Datum> := map[];
    var rest := entries.Keys;
    while rest != {}
      invariant rest <= entries.Keys && m.Keys == entries.Keys - rest
      invariant forall k :: k in m ==> Reads(env, FieldSchema(fields, k).value, entries[k], m[k])
      decreases rest
    {
      var k :| k in rest;
      var v := ValidatedIsPlain(env, FieldSchema(fields, k).value, entries[k]);
      m, rest := m[k := v], rest - {k};
    }
    d := RecordOf(m);
    RecordReads(env, schema, fields, entries, m);
  }

  lemma RecordReads(env: Env, schema: Schema, fields: seq<Field>, entries: map<string, Json>, m: map<string, Datum>)
    requires Deref(env, schema).Record? && Deref(env, schema).fields == fields && Validates(env, schema, Obj(entries))
    requires m.Keys == entries.Keys
    requires forall k :: k in m ==> Reads(env, FieldSchema(fields, k).value, entries[k], m[k])
    ensures Reads(env, schema, Obj(entries), RecordOf(m))
  {
    assert Plain(RecordOf(m)).entries == entries;
  }

  lemma MapReads(env: Env, schema: Schema, values: Schema, entries: map<string, Json>, m: map<string, Datum>)
    requires Deref(env, schema) == Map(values) && m.Keys == entries.Keys
    requires forall k :: k in m ==> Reads(env, values, entries[k], m[k])
    ensures Reads(env, schema, Obj(entries), MapOf(m))
  {
    assert Plain(MapOf(m)).entries == entries;
  }

  lemma MapIsPlain(env: Env, schema: Schema, values: Schema, entries: map<string, Json>) returns (d: Datum)
    requires Deref(env, schema) == Map(values) && Validates(env, schema, Obj(entries))
    ensures Reads(env, schema, Obj(entries), d)
    decreases Obj(entries), 0, 0
  {
    var m: map<string, Datum> := map[];
    var rest := entries.Keys;
    while rest != {}
      invariant rest <= entries.Keys && m.Keys == entries.Keys - rest
      invariant forall k :: k in m ==> Reads(env, values, entries[k], m[k])
      decreases rest
    {
      var k :| k in rest;
      var v := ValidatedIsPlain(env, values, entries[k]);
      m, rest := m[k := v], rest - {k};
    }
    d := MapOf(m);
    MapReads(env, schema, values, entries, m);
  }

  lemma ArrayIsPlain(env: Env, schema: Schema, items: Schema, vs: seq<Json>) returns (d: Datum)
    requires Deref(env, schema) == Array(items) && Validates(env, schema, List(vs))
    ensures Reads(env, schema, List(vs), d)
    decreases List(vs), 0, 0
  {
    var ds: seq<Datum> := [];
    for i := 0 to |vs|
      invariant |ds| == i && forall j :: 0 <= j < i ==> Reads(env, items, vs[j], ds[j])
    {
      var v := ValidatedIsPlain(env, items, vs[i]);
      ds := ds + [v];
    }
    d := ArrayOf(ds);
    assert Plain(d).items == vs;
  }

  /** A value validates if and only if it is what the program holds for some value of the schema. */
  lemma ValidatesIff(env: Env, schema: Schema, value: Json)
    ensures Validates(env, schema, value) <==> exists d :: Reads(env, schema, value, d)
  {
    if Validates(env, schema, value) { var d := ValidatedIsPlain(env, schema, value); }
    if d :| Reads(env, schema, value, d) { PlainValidates(env, schema, d); }
  }

  // ---------------------------------------------------------------- what is written

  function DataFor(env: Env, schema: Schema, value: Json): Json {
    if Validates(env, schema, value) then value else Flatten(env, schema, value)
  }

  /** The Avro case of `write_value`, up to the writer. */
  method WriteValue(env: Env, schema: Schema, value: Json) returns (data: Json)
    ensures data == DataFor(env, schema, value)
  {
    if Validates(env, schema, value) {
      data := value;
    } else {
      data := FlattenUnions.FlattenUnions(env, schema, value);
    }
  }

  /** A value without tags is written as it is, whatever its keys. */
  lemma PlainWritten(env: Env, schema: Schema, d: Datum)
    requires Conforms(env, schema, d) && SingleUnions(d)
    ensures DataFor(env, schema, Plain(d)) == Plain(d)
  {
    PlainValidates(env, schema, d);
  }

  /** The tagged encoding of a value is written as the value if and only if it does not itself validate or has no tags.
      */
  lemma TaggedWrittenIff(env: Env, schema: Schema, d: Datum)
    requires Conforms(env, schema, d) && DistinctTags(env, schema, d)
    ensures var coded := Encode(env, schema, d);
            DataFor(env, schema, coded) == Plain(d) <==>
              !Validates(env, schema, coded) || Untagged(env, schema, coded)
  {
    FlattenUndoesEncode(env, schema, d);
    FlattenIdentityIff(env, schema, Encode(env, schema, d));
  }

  /** So the tags are kept exactly when the encoding also reads as another value of the schema. */
  lemma TagsKeptIff(env: Env, schema: Schema, d: Datum)
    requires Conforms(env, schema, d) && DistinctTags(env, schema, d)
    ensures var coded := Encode(env, schema, d);
            DataFor(env, schema, coded) != Plain(d) <==>
              exists e :: Reads(env, schema, coded, e) && Plain(e) != Plain(d)
  {
    var coded := Encode(env, schema, d);
    TaggedWrittenIff(env, schema, d);
    FlattenUndoesEncode(env, schema, d);
    FlattenIdentityIff(env, schema, coded);
    ValidatesIff(env, schema, coded);
  }

  // ---------------------------------------------------------------- inputs

  const NULL := Primitive("null")
  const STRING := Primitive("string")

  /** The leaves of these examples: strings are strings and null is null. */
  const ENV := Env(map[], (schema: Schema, j: Json) => (schema == NULL && j.Null?) || (schema == STRING && j.Str?))

  /** An empty map in a union with a map of maps: its tagged encoding validates too, and keeps its tag. */
  lemma TagCanBeKept()
    ensures var schema := Union([NULL, Map(Map(STRING))]);
            var d := UnionOf(1, MapOf(map[]));
            && Conforms(ENV, schema, d) && DistinctTags(ENV, schema, d)
            && DataFor(ENV, schema, Encode(ENV, schema, d)) == Obj(map["map" := Obj(map[])]) != Plain(d)
  {
    var schema, d := Union([NULL, Map(Map(STRING))]), UnionOf(1, MapOf(map[]));
    var inner := Map(Map(STRING));
    assert Conforms(ENV, inner, MapOf(map[])) && DistinctTags(ENV, inner, MapOf(map[]));
    assert schema.branches[1] == inner && LabelOf(ENV, NULL) == "null" && LabelOf(ENV, inner) == "map";
    assert Encode(ENV, inner, MapOf(map[])) == Obj(map[]) by {
      assert Encode(ENV, inner, MapOf(map[])).entries == map[];
    }
    var coded := Obj(map["map" := Obj(map[])]);
    assert Encode(ENV, schema, d) == coded;
    assert Validates(ENV, Map(STRING), Obj(map[]));
    assert Validates(ENV, inner, coded);
    assert Validates(ENV, schema, coded);
    assert Plain(d) == Plain(MapOf(map[])) && "map" !in Plain(MapOf(map[])).entries;
  }

  function MixedSchema(): Schema {
    Record("r", [Field("a", Union([NULL, STRING])), Field("b", Union([NULL, Map(STRING)]))])
  }

  /** One field with its tag and one without. */
  function MixedValue(): Json {
    Obj(map["a" := Obj(map["string" := Str("s")]), "b" := Obj(map["map" := Str("x")])])
  }

  lemma MixedTypes()
    ensures FieldSchema(MixedSchema().fields, "a") == Some(Union([NULL, STRING]))
    ensures FieldSchema(MixedSchema().fields, "b") == Some(Union([NULL, Map(STRING)]))
  {
    var fields := MixedSchema().fields;
    assert fields[..1] == [Field("a", Union([NULL, STRING]))];
  }

  lemma TaggedStringInvalid(value: Json)
    requires value.Obj?
    ensures !Validates(ENV, Union([NULL, STRING]), value)
  {
    forall i | 0 <= i < 2 ensures !Validates(ENV, [NULL, STRING][i], value) {
      assert !Validates(ENV, NULL, value) && !Validates(ENV, STRING, value);
    }
  }

  lemma StringIsNoMap()
    ensures !Validates(ENV, Union([NULL, Map(STRING)]), Str("x"))
  {
    forall i | 0 <= i < 2 ensures !Validates(ENV, [NULL, Map(STRING)][i], Str("x")) {
      assert !Validates(ENV, NULL, Str("x")) && !Validates(ENV, Map(STRING), Str("x"));
    }
  }

  lemma SecondTagged(schema: Schema, entries: map<string, Json>)
    requires "null" !in entries && Tag(ENV, schema) in entries
    ensures TaggedBranch(ENV, [NULL, schema], entries) == Some(schema)
  {
    assert [NULL, schema][1..] == [schema];
    assert TaggedBranch(ENV, [schema], entries) == Some(schema);
  }

  lemma MixedFlattened()
    ensures Flatten(ENV, MixedSchema(), MixedValue()) == Obj(map["a" := Str("s"), "b" := Str("x")])
  {
    var es := MixedValue().entries;
    MixedTypes();
    assert Tag(ENV, NULL) == "null" && Tag(ENV, STRING) == "string" && Tag(ENV, Map(STRING)) == "map";
    SecondTagged(STRING, es["a"].entries);
    SecondTagged(Map(STRING), es["b"].entries);
    assert Flatten(ENV, Union([NULL, STRING]), es["a"]) == Str("s");
    assert Flatten(ENV, Union([NULL, Map(STRING)]), es["b"]) == Str("x");
    RecordFlat(ENV, MixedSchema(), MixedSchema().fields, es);
    assert Flatten(ENV, MixedSchema(), MixedValue()).entries == map["a" := Str("s"), "b" := Str("x")];
  }

  /** A record that does not validate because of one tagged field is flattened as a whole, and a field without tag, a
      map with the key "map" that validates by itself, is written as something that does not. */
  lemma UntaggedFieldDamaged()
    ensures !Validates(ENV, MixedSchema(), MixedValue())
    ensures Validates(ENV, Union([NULL, Map(STRING)]), MixedValue().entries["b"])
    ensures DataFor(ENV, MixedSchema(), MixedValue()) == Obj(map["a" := Str("s"), "b" := Str("x")])
    ensures !Validates(ENV, MixedSchema(), DataFor(ENV, MixedSchema(), MixedValue()))
  {
    MixedTypes();
    TaggedStringInvalid(MixedValue().entries["a"]);
    MixedFlattened();
    StringIsNoMap();
    var b := MixedValue().entries["b"];
    assert Validates(ENV, STRING, Str("x"));
    assert Validates(ENV, Map(STRING), b);
    assert [NULL, Map(STRING)][1] == Map(STRING) && !Deref(ENV, Map(STRING)).Union?;
  }
}
