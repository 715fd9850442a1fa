/** Avro data in its JSON encoding tags the values of unions; `flatten_unions` (serialization.py) removes
    the tags. */
module FlattenUnions {
  import opened JsonValues
  import opened SchemaModels

  datatype Field = Field(name: string, schema: Schema)

  /** `Named` stands for enums and fixed types; `Ref` for the use of a record by its name, which is how a
      record schema can contain itself. */
  datatype Schema =
    | Primitive(name: string)
    | Named(name: string)
    | Record(name: string, fields: seq<Field>)
    | Union(branches: seq<Schema>)
    | Array(items: Schema)
    | Map(values: Schema)
    | Ref(name: string)

  /** The record schemas that can be referred to by name, and what the Avro library says of a value that is neither a
      list nor an object where a primitive, an enum or a fixed type is expected. */
  datatype Env = Env(records: map<string, Schema>, leaf: (Schema, Json) -> bool)

  function Deref(env: Env, schema: Schema): Schema {
    if schema.Ref? && schema.name in env.records then env.records[schema.name] else schema
  }

  /** `get_name`: what tags a value of this branch. */
  function Tag(env: Env, schema: Schema): string {
    match Deref(env, schema)
    case Array(_) => "array"
    case Map(_) => "map"
    case Union(_) => ""
    case s => s.name
  }

  /** The schema of the last field with this name. */
  function FieldSchema(fields: seq<Field>, name: string): Option<Schema> {
    if fields == [] then None
    else if fields[|fields| - 1].name == name then Some(fields[|fields| - 1].schema)
    else FieldSchema(fields[..|fields| - 1], name)
  }

  /** The first branch whose tag is a key of the value. */
  function TaggedBranch(env: Env, branches: seq<Schema>, entries: map<string, Json>): Option<Schema> {
    if branches == [] then None
    else if Tag(env, branches[0]) in entries then Some(branches[0])
    else TaggedBranch(env, branches[1..], entries)
  }

  /** `flatten_unions` */
  function Flatten(env: Env, schema: Schema, value: Json): Json
    decreases value
  {
    match (Deref(env, schema), value)
    case (Record(_, fields), Obj(entries)) =>
      Obj(map k | k in entries ::
            match FieldSchema(fields, k)
            case Some(s) => Flatten(env, s, entries[k])
            case None => entries[k])
    case (Union(branches), Obj(entries)) =>
      (match TaggedBranch(env, branches, entries)
       case Some(s) =>
         TaggedBranchSpec(env, branches, entries);
         Flatten(env, s, entries[Tag(env, s)])
       case None => value)
    case (Array(items), List(vs)) => List(seq(|vs|, i requires 0 <= i < |vs| => Flatten(env, items, vs[i])))
    case (Map(values), Obj(entries)) => Obj(map k | k in entries :: Flatten(env, values, entries[k]))
    case _ => value
  }

  lemma {:induction false} TaggedBranchSpec(env: Env, branches: seq<Schema>, entries: map<string, Json>)
    ensures var s := TaggedBranch(env, branches, entries);
            && (s.Some? ==> s.value in branches && Tag(env, s.value) in entries)
            && (s.None? ==> forall b :: b in branches ==> Tag(env, b) !in entries)
  {
    if branches != [] && Tag(env, branches[0]) !in entries { TaggedBranchSpec(env, branches[1..], entries); }
  }

  /** The same as code. */
  method FlattenUnions(env: Env, schema: Schema, value: Json) returns (result: Json)
    ensures result == Flatten(env, schema, value)
    decreases value, 1
  {
    var s := Deref(env, schema);
    if s.Record? && value.Obj? {
      result := FlattenRecord(env, schema, s.fields, value);
      return;
    }
    if s.Union? && value.Obj? {
      result := FlattenUnion(env, schema, s.branches, value);
      return;
    }
    if s.Array? && value.List? {
      result := FlattenArray(env, schema, value);
      return;
    }
    if s.Map? && value.Obj? {
      result := FlattenMap(env, schema, value);
      return;
    }
    return value;
  }

  /** A copy of the value, rewritten field by field. */
  method FlattenRecord(env: Env, schema: Schema, fields: seq<Field>, value: Json) returns (result: Json)
    requires Deref(env, schema).Record? && Deref(env, schema).fields == fields && value.Obj?
    ensures result == Flatten(env, schema, value)
    decreases value, 0
  {
    var copy := value.entries;
    for i := 0 to |fields|
      invariant copy.Keys == value.entries.Keys
      invariant forall k :: k in copy ==>
                  copy[k] == match FieldSchema(fields[..i], k)
                             case Some(t) => Flatten(env, t, value.entries[k])
                             case None => value.entries[k]
    {
      var field := fields[i];
      assert fields[..i + 1][..i] == fields[..i];
      if field.name in value.entries {
        var flat := FlattenUnions(env, field.schema, value.entries[field.name]);
        copy := copy[field.name := flat];
      }
    }
    assert fields[..|fields|] == fields;
    result := Obj(copy);
  }

  /** Looks for the first branch whose tag is a key. */
  method FlattenUnion(env: Env, schema: Schema, branches: seq<Schema>, value: Json) returns (result: Json)
    requires Deref(env, schema) == Union(branches) && value.Obj?
    ensures result == Flatten(env, schema, value)
    decreases value, 0
  {
    var i := 0;
    while i < |branches| && Tag(env, branches[i]) !in value.entries
      invariant 0 <= i <= |branches|
      invariant TaggedBranch(env, branches, value.entries) == TaggedBranch(env, branches[i..], value.entries)
    {
      i := i + 1;
    }
    if i < |branches| {
      result := FlattenUnions(env, branches[i], value.entries[Tag(env, branches[i])]);
    } else {
      result := value;
    }
  }

  method FlattenArray(env: Env, schema: Schema, value: Json) returns (result: Json)
    requires Deref(env, schema).Array? && value.List?
    ensures result == Flatten(env, schema, value)
    decreases value, 0
  {
    var items := Deref(env, schema).items;
    var flat: seq<Json> := [];
    for i := 0 to |value.items|
      invariant |flat| == i
      invariant forall j :: 0 <= j < i ==> flat[j] == Flatten(env, items, value.items[j])
    {
      var v := FlattenUnions(env, items, value.items[i]);
      flat := flat + [v];
    }
    result := List(flat);
  }

  method FlattenMap(env: Env, schema: Schema, value: Json) returns (result: Json)
    requires Deref(env, schema).Map? && value.Obj?
    ensures result == Flatten(env, schema, value)
    decreases value, 0
  {
    var values := Deref(env, schema).values;
    var flat: map<string, Json> := map[];
    var rest := value.entries.Keys;
    while rest != {}
      invariant rest <= value.entries.Keys && flat.Keys == value.entries.Keys - rest
      invariant forall k :: k in flat ==> flat[k] == Flatten(env, values, value.entries[k])
      decreases rest
    {
      var k :| k in rest;
      var v := FlattenUnions(env, values, value.entries[k]);
      flat := flat[k := v];
      rest := rest - {k};
    }
    result := Obj(flat);
  }

  // ---------------------------------------------------------------- the JSON encoding and its inverse

  /** A value together with the branch each union takes. */
  datatype Datum =
    | Scalar(json: Json)
    | RecordOf(fields: map<string, Datum>)
    | UnionOf(branch: nat, value: Datum)
    | ArrayOf(items: seq<Datum>)
    | MapOf(entries: map<string, Datum>)

  /** The label of a branch in the JSON encoding of the Avro specification, section "JSON Encoding": the name of the
      primitive, the word for arrays and maps, the name given to a record, enum or fixed type. */
  function UnionLabel(schema: Schema): string {
    match schema
    case Primitive(name) => name
    case Array(_) => "array"
    case Map(_) => "map"
    case Record(name, _) => name
    case Named(name) => name
    case Ref(name) => name
    case Union(_) => ""
  }

  /** The same where a record may be referred to by its name. */
  function LabelOf(env: Env, schema: Schema): string {
    if schema.Ref? && schema.name in env.records then UnionLabel(env.records[schema.name]) else UnionLabel(schema)
  }

  /** The code looks for the labels of the specification. */
  lemma TagIsLabel(env: Env, schema: Schema)
    ensures Tag(env, schema) == LabelOf(env, schema)
  {
  }

  predicate IsNull(env: Env, schema: Schema) { Deref(env, schema) == Primitive("null") }

  predicate LeafFits(env: Env, schema: Schema, j: Json) {
    && !j.List? && !j.Obj? && env.leaf(schema, j)
    && (schema.Primitive? ==> (j.Null? <==> schema.name == "null")) && (schema.Named? ==> j.Str?)
  }

  /** A missing field counts as null. */
  predicate TakesNull(env: Env, schema: Schema) {
    var s := Deref(env, schema);
    if s.Union? then exists b :: b in s.branches && IsNull(env, b) && env.leaf(Deref(env, b), Null)
    else IsNull(env, s) && env.leaf(s, Null)
  }

  ghost predicate Conforms(env: Env, schema: Schema, d: Datum)
    decreases d
  {
    match (Deref(env, schema), d)
    case (Primitive(_), Scalar(j)) => LeafFits(env, Deref(env, schema), j)
    case (Named(_), Scalar(j)) => LeafFits(env, Deref(env, schema), j)
    case (Record(_, fields), RecordOf(m)) =>
      && (forall i :: 0 <= i < |fields| ==> fields[i].name in m || TakesNull(env, fields[i].schema))
      && (forall k :: k in m ==> FieldSchema(fields, k).Some? && Conforms(env, FieldSchema(fields, k).value, m[k]))
    case (Union(branches), UnionOf(i, v)) => i < |branches| && Conforms(env, branches[i], v)
    case (Array(items), ArrayOf(vs)) => forall i :: 0 <= i < |vs| ==> Conforms(env, items, vs[i])
    case (Map(values), MapOf(m)) => forall k :: k in m ==> Conforms(env, values, m[k])
    case _ => false
  }

  /** The value as the program holds it, without tags. */
  function Plain(d: Datum): Json {
    match d
    case Scalar(j) => j
    case RecordOf(m) => Obj(map k | k in m :: Plain(m[k]))
    case UnionOf(_, v) => Plain(v)
    case ArrayOf(vs) => List(seq(|vs|, i requires 0 <= i < |vs| => Plain(vs[i])))
    case MapOf(m) => Obj(map k | k in m :: Plain(m[k]))
  }

  /** The value in the JSON encoding of the Avro specification: null is null, and any other value of a union
      is an object with the tag of its branch as only key. */
  ghost function Encode(env: Env, schema: Schema, d: Datum): Json
    requires Conforms(env, schema, d)
    decreases d
  {
    match d
    case Scalar(j) => j
    case RecordOf(m) =>
      var fields := Deref(env, schema).fields;
      Obj(map k | k in m :: Encode(env, FieldSchema(fields, k).value, m[k]))
    case UnionOf(i, v) =>
      var b := Deref(env, schema).branches[i];
      if IsNull(env, b) then Null else Obj(map[LabelOf(env, b) := Encode(env, b, v)])
    case ArrayOf(vs) => List(seq(|vs|, i requires 0 <= i < |vs| => Encode(env, Deref(env, schema).items, vs[i])))
    case MapOf(m) => Obj(map k | k in m :: Encode(env, Deref(env, schema).values, m[k]))
  }

  /** Every union met while encoding has distinct tags. */
  ghost predicate DistinctTags(env: Env, schema: Schema, d: Datum)
    requires Conforms(env, schema, d)
    decreases d
  {
    match d
    case Scalar(_) => true
    case RecordOf(m) =>
      var fields := Deref(env, schema).fields;
      forall k :: k in m ==> DistinctTags(env, FieldSchema(fields, k).value, m[k])
    case UnionOf(i, v) =>
      var branches := Deref(env, schema).branches;
      && (forall a, b :: 0 <= a < b < |branches| ==> LabelOf(env, branches[a]) != LabelOf(env, branches[b]))
      && DistinctTags(env, branches[i], v)
    case ArrayOf(vs) => forall i :: 0 <= i < |vs| ==> DistinctTags(env, Deref(env, schema).items, vs[i])
    case MapOf(m) => forall k :: k in m ==> DistinctTags(env, Deref(env, schema).values, m[k])
  }

  lemma {:induction false} OnlyTag(env: Env, branches: seq<Schema>, i: nat, v: Json)
    requires i < |branches|
    requires forall a, b :: 0 <= a < b < |branches| ==> LabelOf(env, branches[a]) != LabelOf(env, branches[b])
    ensures TaggedBranch(env, branches, map[LabelOf(env, branches[i]) := v]) == Some(branches[i])
    decreases |branches|
  {
    TagIsLabel(env, branches[0]);
    if i > 0 { OnlyTag(env, branches[1..], i - 1, v); }
  }

  /** Flattening gives back the plain value of `d`. */
  ghost predicate Undone(env: Env, schema: Schema, d: Datum)
    requires Conforms(env, schema, d)
  {
    Flatten(env, schema, Encode(env, schema, d)) == Plain(d)
  }

  /** A record is undone once each of its fields is. */
  lemma RecordUndone(env: Env, schema: Schema, m: map<string, Datum>)
    requires Conforms(env, schema, RecordOf(m))
    requires forall k :: k in m ==> Undone(env, FieldSchema(Deref(env, schema).fields, k).value, m[k])
    ensures Flatten(env, schema, Encode(env, schema, RecordOf(m))) == Plain(RecordOf(m))
  {
    var fields := Deref(env, schema).fields;
    var coded := CodedFields(env, schema, m);
    RecordFlat(env, schema, fields, coded);
    var flat := Flatten(env, schema, Obj(coded)).entries;
    forall k | k in m ensures flat[k] == Plain(m[k]) {
      assert Undone(env, FieldSchema(fields, k).value, m[k]);
    }
    PlainFields(m, flat);
  }

  lemma CodedFields(env: Env, schema: Schema, m: map<string, Datum>) returns (coded: map<string, Json>)
    requires Conforms(env, schema, RecordOf(m))
    ensures Encode(env, schema, RecordOf(m)) == Obj(coded) && coded.Keys == m.Keys
    ensures forall k :: k in m ==> coded[k] == Encode(env, FieldSchema(Deref(env, schema).fields, k).value, m[k])
  {
    coded := Encode(env, schema, RecordOf(m)).entries;
  }

  lemma PlainFields(m: map<string, Datum>, flat: map<string, Json>)
    requires flat.Keys == m.Keys && forall k :: k in m ==> flat[k] == Plain(m[k])
    ensures Plain(RecordOf(m)) == Obj(flat)
  {
    assert Plain(RecordOf(m)).entries == flat;
  }

  lemma RecordFlat(env: Env, schema: Schema, fields: seq<Field>, es: map<string, Json>)
    requires Deref(env, schema).Record? && Deref(env, schema).fields == fields
    ensures var flat := Flatten(env, schema, Obj(es));
            && flat.Obj? && flat.entries.Keys == es.Keys
            && forall k :: k in es && FieldSchema(fields, k).Some? ==>
                 flat.entries[k] == Flatten(env, FieldSchema(fields, k).value, es[k])
  {
  }

  lemma MapUndone(env: Env, schema: Schema, m: map<string, Datum>)
    requires Conforms(env, schema, MapOf(m))
    requires var values := Deref(env, schema).values; forall k :: k in m ==>
               Flatten(env, values, Encode(env, values, m[k])) == Plain(m[k])
    ensures Flatten(env, schema, Encode(env, schema, MapOf(m))) == Plain(MapOf(m))
  {
    assert Flatten(env, schema, Encode(env, schema, MapOf(m))).entries == Plain(MapOf(m)).entries;
  }

  lemma ArrayUndone(env: Env, schema: Schema, vs: seq<Datum>)
    requires Conforms(env, schema, ArrayOf(vs))
    requires var items := Deref(env, schema).items; forall i :: 0 <= i < |vs| ==>
               Flatten(env, items, Encode(env, items, vs[i])) == Plain(vs[i])
    ensures Flatten(env, schema, Encode(env, schema, ArrayOf(vs))) == Plain(ArrayOf(vs))
  {
    assert Flatten(env, schema, Encode(env, schema, ArrayOf(vs))).items == Plain(ArrayOf(vs)).items;
  }

  /** Flattening undoes the encoding, for every schema, recursive ones included, and every value of it. */
  lemma {:induction false} FlattenUndoesEncode(env: Env, schema: Schema, d: Datum)
    requires Conforms(env, schema, d) && DistinctTags(env, schema, d)
    ensures Flatten(env, schema, Encode(env, schema, d)) == Plain(d)
    decreases d
  {
    var s := Deref(env, schema);
    match d
    case Scalar(j) =>
    case RecordOf(m) =>
      forall k | k in m ensures Undone(env, FieldSchema(s.fields, k).value, m[k]) {
        FlattenUndoesEncode(env, FieldSchema(s.fields, k).value, m[k]);
      }
      RecordUndone(env, schema, m);
    case UnionOf(i, v) =>
      var b := s.branches[i];
      if IsNull(env, b) {
        assert v == Scalar(Null);
      } else {
        OnlyTag(env, s.branches, i, Encode(env, b, v));
        TagIsLabel(env, b);
        FlattenUndoesEncode(env, b, v);
      }
    case ArrayOf(vs) =>
      forall i | 0 <= i < |vs| ensures Flatten(env, s.items, Encode(env, s.items, vs[i])) == Plain(vs[i]) {
        FlattenUndoesEncode(env, s.items, vs[i]);
      }
      ArrayUndone(env, schema, vs);
    case MapOf(m) =>
      forall k | k in m ensures Flatten(env, s.values, Encode(env, s.values, m[k])) == Plain(m[k]) {
        FlattenUndoesEncode(env, s.values, m[k]);
      }
      MapUndone(env, schema, m);
  }

  // ---------------------------------------------------------------- data that is already flat

  /** No object met where the schema has a union has a key that is the tag of a branch. */
  ghost predicate Untagged(env: Env, schema: Schema, value: Json)
    decreases value
  {
    match (Deref(env, schema), value)
    case (Record(_, fields), Obj(entries)) =>
      forall k :: k in entries && FieldSchema(fields, k).Some? ==>
          Untagged(env, FieldSchema(fields, k).value, entries[k])
    case (Union(branches), Obj(entries)) => forall b :: b in branches ==> Tag(env, b) !in entries
    case (Array(items), List(vs)) => forall i :: 0 <= i < |vs| ==> Untagged(env, items, vs[i])
    case (Map(values), Obj(entries)) => forall k :: k in entries ==> Untagged(env, values, entries[k])
    case _ => true
  }

  ghost predicate DepthAtMost(value: Json, n: nat) {
    match value
    case List(vs) => n > 0 && forall i :: 0 <= i < |vs| ==> DepthAtMost(vs[i], n - 1)
    case Obj(m) => n > 0 && forall k :: k in m ==> DepthAtMost(m[k], n - 1)
    case _ => true
  }

  lemma {:induction false} Deeper(value: Json, n: nat, m: nat)
    requires DepthAtMost(value, n) && n <= m
    ensures DepthAtMost(value, m)
  {
    match value
    case List(vs) => forall i | 0 <= i < |vs| ensures DepthAtMost(vs[i], m - 1) { Deeper(vs[i], n - 1, m - 1); }
    case Obj(es) => forall k | k in es ensures DepthAtMost(es[k], m - 1) { Deeper(es[k], n - 1, m - 1); }
    case _ =>
  }

  lemma {:induction false} HasDepth(value: Json) returns (n: nat)
    ensures DepthAtMost(value, n)
  {
    n := 0;
    match value
    case List(vs) =>
      var i := 0;
      while i < |vs|
        invariant 0 <= i <= |vs| && forall j :: 0 <= j < i ==> DepthAtMost(vs[j], n)
      {
        var m := HasDepth(vs[i]);
        var both := if m < n then n else m;
        forall j | 0 <= j < i ensures DepthAtMost(vs[j], both) { Deeper(vs[j], n, both); }
        Deeper(vs[i], m, both);
        n, i := both, i + 1;
      }
      n := n + 1;
    case Obj(es) =>
      var rest := es.Keys;
      while rest != {}
        invariant rest <= es.Keys && forall k :: k in es && k !in rest ==> DepthAtMost(es[k], n)
        decreases rest
      {
        var x :| x in rest;
        var m := HasDepth(es[x]);
        var both := if m < n then n else m;
        forall k | k in es && k !in rest ensures DepthAtMost(es[k], both) { Deeper(es[k], n, both); }
        Deeper(es[x], m, both);
        n, rest := both, rest - {x};
      }
      n := n + 1;
    case _ =>
  }

  lemma {:induction false} FlattenNotDeeper(env: Env, schema: Schema, value: Json, n: nat)
    requires DepthAtMost(value, n)
    ensures DepthAtMost(Flatten(env, schema, value), n)
    decreases value
  {
    match (Deref(env, schema), value)
    case (Record(_, fields), Obj(es)) =>
      forall k | k in es && FieldSchema(fields, k).Some?
        ensures DepthAtMost(Flatten(env, FieldSchema(fields, k).value, es[k]), n - 1)
      {
        FlattenNotDeeper(env, FieldSchema(fields, k).value, es[k], n - 1);
      }
    case (Union(branches), Obj(es)) =>
      TaggedBranchSpec(env, branches, es);
      var b := TaggedBranch(env, branches, es);
      if b.Some? {
        FlattenNotDeeper(env, b.value, es[Tag(env, b.value)], n - 1);
        Deeper(Flatten(env, schema, value), n - 1, n);
      }
    case (Array(items), List(vs)) =>
      forall i | 0 <= i < |vs| ensures DepthAtMost(Flatten(env, items, vs[i]), n - 1) {
        FlattenNotDeeper(env, items, vs[i], n - 1);
      }
    case (Map(values), Obj(es)) =>
      forall k | k in es ensures DepthAtMost(Flatten(env, values, es[k]), n - 1) {
        FlattenNotDeeper(env, values, es[k], n - 1);
      }
    case _ =>
  }

  /** What lies inside an object does not flatten to the object. */
  lemma {:induction false} InsideDiffers(env: Env, schema: Schema, es: map<string, Json>, key: string, n: nat)
    requires key in es && DepthAtMost(Obj(es), n)
    ensures Flatten(env, schema, es[key]) != Obj(es)
  {
    FlattenNotDeeper(env, schema, es[key], n - 1);
    if n > 1 && DepthAtMost(Obj(es), n - 1) { InsideDiffers(env, schema, es, key, n - 1); }
  }

  /** Flattening leaves a value as it is exactly when the value is untagged: for any schema and any JSON. */
  lemma {:induction false} FlattenIdentityIff(env: Env, schema: Schema, value: Json)
    ensures Flatten(env, schema, value) == value <==> Untagged(env, schema, value)
    decreases value
  {
    match (Deref(env, schema), value)
    case (Record(_, fields), Obj(es)) =>
      forall k | k in es && FieldSchema(fields, k).Some?
        ensures Flatten(env, FieldSchema(fields, k).value, es[k]) == es[k] <==>
                  Untagged(env, FieldSchema(fields, k).value, es[k])
      {
        FlattenIdentityIff(env, FieldSchema(fields, k).value, es[k]);
      }
      RecordIdentity(env, schema, fields, es);
    case (Union(branches), Obj(es)) =>
      TaggedBranchSpec(env, branches, es);
      var b := TaggedBranch(env, branches, es);
      if b.Some? {
        var n := HasDepth(value);
        InsideDiffers(env, b.value, es, Tag(env, b.value), n);
      }
    case (Array(items), List(vs)) =>
      forall i | 0 <= i < |vs| ensures Flatten(env, items, vs[i]) == vs[i] <==> Untagged(env, items, vs[i]) {
        FlattenIdentityIff(env, items, vs[i]);
      }
      ArrayIdentity(env, schema, items, vs);
    case (Map(values), Obj(es)) =>
      forall k | k in es ensures Flatten(env, values, es[k]) == es[k] <==> Untagged(env, values, es[k]) {
        FlattenIdentityIff(env, values, es[k]);
      }
      MapIdentity(env, schema, values, es);
    case _ =>
  }

  lemma ArrayIdentity(env: Env, schema: Schema, items: Schema, vs: seq<Json>)
    requires Deref(env, schema).Array? && Deref(env, schema).items == items
    ensures Flatten(env, schema, List(vs)) == List(vs) <==>
              forall i :: 0 <= i < |vs| ==> Flatten(env, items, vs[i]) == vs[i]
  {
    var flat := Flatten(env, schema, List(vs)).items;
    assert flat == vs <==> forall i :: 0 <= i < |vs| ==> flat[i] == vs[i];
  }

  lemma MapIdentity(env: Env, schema: Schema, values: Schema, es: map<string, Json>)
    requires Deref(env, schema).Map? && Deref(env, schema).values == values
    ensures Flatten(env, schema, Obj(es)) == Obj(es) <==> forall k :: k in es ==> Flatten(env, values, es[k]) == es[k]
  {
    var flat := Flatten(env, schema, Obj(es)).entries;
    assert flat == es <==> forall k :: k in es ==> flat[k] == es[k];
  }

  lemma RecordIdentity(env: Env, schema: Schema, fields: seq<Field>, es: map<string, Json>)
    requires Deref(env, schema).Record? && Deref(env, schema).fields == fields
    ensures Flatten(env, schema, Obj(es)) == Obj(es) <==>
            forall k :: k in es && FieldSchema(fields, k).Some? ==>
                Flatten(env, FieldSchema(fields, k).value, es[k]) == es[k]
  {
    var flat := Flatten(env, schema, Obj(es)).entries;
    assert flat == es <==> forall k :: k in es ==> flat[k] == es[k];
  }
}
