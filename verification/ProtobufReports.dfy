/** Which modifications a comparison reports, and where: each difference under its own name and at its own path. */
module ProtobufReports {
  import opened Dicts
  import opened SchemaModels
  import opened Text
  import opened ProtobufModel
  import opened ProtobufCompare
  import opened ProtobufTables

  predicate Reported(d: Ctx, m: Modification, path: seq<string>) { ModificationRecord(m, Dotted(path)) in d.found }

  lemma StaysReported(c: Ctx, d: Ctx, m: Modification, path: seq<string>)
    requires Kept(c, d) && Reported(c, m, path)
    ensures Reported(d, m, path)
  {
    var i :| 0 <= i < |c.found| && c.found[i] == ModificationRecord(m, Dotted(path));
    assert d.found[i] == c.found[i];
  }

  lemma JustReported(c: Ctx, m: Modification)
    ensures Reported(c.Add(m), m, c.path)
  {
    assert c.Add(m).found[|c.found|] == ModificationRecord(m, Dotted(c.path));
  }

  // ---------------------------------------------------------------- enums

  /** What the two enums say about a number: nothing, or one difference. */
  function ConstantChange(a: map<nat, EnumConstant>, b: map<nat, EnumConstant>, tag: nat): Option<Modification> {
    if tag in a && tag in b then if a[tag].name != b[tag].name then Some(ENUM_CONSTANT_ALTER) else None
    else if tag in b then Some(ENUM_CONSTANT_ADD)
    else if tag in a then Some(ENUM_CONSTANT_DROP)
    else None
  }

  ghost predicate ConstantsSay(c: Ctx, d: Ctx, keys: seq<nat>, a: map<nat, EnumConstant>, b: map<nat, EnumConstant>) {
    && |c.found| <= |d.found|
    && (forall tag :: tag in keys && ConstantChange(a, b, tag).Some? ==>
          Reported(d, ConstantChange(a, b, tag).value, c.path + [Decimal(tag)]))
    && (forall i :: |c.found| <= i < |d.found| ==> SaidOf(c, keys, a, b, d.found[i]))
  }

  ghost predicate SaidOf(c: Ctx, keys: seq<nat>, a: map<nat, EnumConstant>, b: map<nat, EnumConstant>,
                         r: ModificationRecord) {
    exists tag :: && tag in keys && ConstantChange(a, b, tag) == Some(r.modification)
                  && r.path == Dotted(c.path + [Decimal(tag)])
  }

  lemma ConstantSays(c: Ctx, tag: nat, self: Dict<nat, EnumConstant>, other: Dict<nat, EnumConstant>)
    requires tag in self.entries || tag in other.entries
    ensures var d, change := CompareConstant(c, tag, self, other), ConstantChange(self.entries, other.entries, tag);
            d.found == c.found + if change.Some?
              then [ModificationRecord(change.value, Dotted(c.path + [Decimal(tag)]))]
                                 else []
  {
  }

  lemma {:induction false} ConstantsSayAll(c: Ctx, keys: seq<nat>, self: Dict<nat, EnumConstant>,
                                           other: Dict<nat, EnumConstant>)
    requires forall k :: k in keys ==> k in self.entries || k in other.entries
    ensures ConstantsSay(c, CompareConstants(c, keys, self, other), keys, self.entries, other.entries)
  {
    if keys != [] {
      var init, tag := keys[..|keys| - 1], keys[|keys| - 1];
      var before, d := CompareConstants(c, init, self, other), CompareConstants(c, keys, self, other);
      ConstantsSayAll(c, init, self, other);
      ConstantSays(before, tag, self, other);
      assert keys == init + [tag] && before.path == c.path;
      forall i | |c.found| <= i < |d.found| ensures SaidOf(c, keys, self.entries, other.entries, d.found[i]) {
        if i < |before.found| { assert d.found[i] == before.found[i]; }
      }
      forall t | t in keys && ConstantChange(self.entries, other.entries, t).Some?
        ensures Reported(d, ConstantChange(self.entries, other.entries, t).value, c.path + [Decimal(t)])
      {
        if t in init {
          StaysReported(before, d, ConstantChange(self.entries, other.entries, t).value, c.path + [Decimal(t)]);
        }
      }
    }
  }

  /** Comparing two enums reports exactly: an added constant for a number that only the second has, a dropped one for a
      number that only the first has, an altered one for a number with two names; each at that number. */
  lemma EnumReports(c: Ctx, self: TypeElement, other: TypeElement)
    requires self.EnumElement? && other.EnumElement?
    ensures var a, b := ConstantsByTag(self.constants), ConstantsByTag(other.constants);
            ConstantsSay(c, CompareEnum(c, self, other), Chain(a.keys, b.keys), a.entries, b.entries)
  {
    var a, b := ConstantsByTag(self.constants), ConstantsByTag(other.constants);
    ConstantsFrom(self.constants);
    ConstantsFrom(other.constants);
    ChainSpec(a.keys, b.keys);
    ConstantsSayAll(c, Chain(a.keys, b.keys), a, b);
  }

  // ---------------------------------------------------------------- plain fields

  ghost predicate FieldSaid(
    c: Ctx, d: Ctx, tag: nat, tags: map<nat, FieldElement>, otherTags: map<nat, FieldElement>)
  {
    && (tag !in tags ==> Reported(d, FIELD_ADD, c.path + [Decimal(tag)]))
    && (tag in tags && tag !in otherTags ==> Reported(d, FIELD_DROP, c.path + [Decimal(tag)]))
    && (tag in tags && tag in otherTags && tags[tag].name != otherTags[tag].name ==>
          Reported(d, FIELD_NAME_ALTER, c.path + [Decimal(tag)]))
  }

  lemma FieldSays(c: Ctx, f: FieldElement, g: FieldElement)
    requires Closed(c) && f.name != g.name
    ensures Reported(CompareField(c, f, g), FIELD_NAME_ALTER, c.path)
  {
    JustReported(c, FIELD_NAME_ALTER);
    StaysReported(c.Add(FIELD_NAME_ALTER), CompareField(c, f, g), FIELD_NAME_ALTER, c.path);
  }

  lemma CommonSays(c: Ctx, tag: nat, tags: Dict<nat, FieldElement>, otherTags: Dict<nat, FieldElement>)
    requires Closed(c)
    ensures FieldSaid(c, CompareCommon(c, tag, tags, otherTags), tag, tags.entries, otherTags.entries)
  {
    var at := c.Push(Decimal(tag));
    JustReported(at, FIELD_ADD);
    JustReported(at, FIELD_DROP);
    if tag in tags.entries && tag in otherTags.entries && tags.entries[tag].name != otherTags.entries[tag].name {
      FieldSays(at, tags.entries[tag], otherTags.entries[tag]);
    }
  }

  lemma PlainSays(
    c: Ctx, tag: nat, tags: Dict<nat, FieldElement>, otherTags: Dict<nat, FieldElement>,
    selfNames: map<string, FieldElement>, otherNames: map<string, FieldElement>)
    requires Closed(c)
    ensures var d := ComparePlain(c, tag, tags, otherTags, selfNames, otherNames);
            && FieldSaid(c, d, tag, tags.entries, otherTags.entries)
            && (TagAltered(tag, tags, selfNames, otherNames) ==>
                  Reported(d, FIELD_TAG_ALTER, c.path + [tags.entries[tag].name]))
  {
    var altered := CompareAltered(c, tag, tags, selfNames, otherNames);
    var d := ComparePlain(c, tag, tags, otherTags, selfNames, otherNames);
    CommonSays(altered, tag, tags, otherTags);
    if TagAltered(tag, tags, selfNames, otherNames) {
      JustReported(c.Push(tags.entries[tag].name), FIELD_TAG_ALTER);
      StaysReported(altered, d, FIELD_TAG_ALTER, c.path + [tags.entries[tag].name]);
    }
  }

  lemma SaidStays(c: Ctx, b: Ctx, d: Ctx, tag: nat, tags: map<nat, FieldElement>, otherTags: map<nat, FieldElement>)
    requires Kept(b, d) && FieldSaid(c, b, tag, tags, otherTags)
    ensures FieldSaid(c, d, tag, tags, otherTags)
  {
    var path := c.path + [Decimal(tag)];
    forall m | Reported(b, m, path) ensures Reported(d, m, path) { StaysReported(b, d, m, path); }
  }

  lemma {:induction false} FieldsSay(
    c: Ctx, keys: seq<nat>, tags: Dict<nat, FieldElement>, otherTags: Dict<nat, FieldElement>,
    selfNames: map<string, FieldElement>, otherNames: map<string, FieldElement>, tag: nat)
    requires Closed(c) && tag in keys
    ensures var d := CompareFields(c, keys, tags, otherTags, selfNames, otherNames);
            && FieldSaid(c, d, tag, tags.entries, otherTags.entries)
            && (TagAltered(tag, tags, selfNames, otherNames) ==>
                  Reported(d, FIELD_TAG_ALTER, c.path + [tags.entries[tag].name]))
    decreases |keys|
  {
    var init, last := keys[..|keys| - 1], keys[|keys| - 1];
    var before := CompareFields(c, init, tags, otherTags, selfNames, otherNames);
    var d := CompareFields(c, keys, tags, otherTags, selfNames, otherNames);
    if last == tag {
      PlainSays(before, tag, tags, otherTags, selfNames, otherNames);
    } else {
      assert keys == init + [last];
      FieldsSay(c, init, tags, otherTags, selfNames, otherNames, tag);
      SaidStays(c, before, d, tag, tags.entries, otherTags.entries);
      if TagAltered(tag, tags, selfNames, otherNames) {
        StaysReported(before, d, FIELD_TAG_ALTER, c.path + [tags.entries[tag].name]);
      }
    }
  }

  /** Comparing two messages reports, for every number of a plain field that no one-of of the second took over: an added
      field if only the second has it, a dropped one if only the first has it, and a renamed one if their names differ.
      */
  lemma MessageReports(c: Ctx, self: TypeElement, other: TypeElement, tag: nat)
    requires Closed(c) && self.MessageElement? && other.MessageElement? && AllKnown(c.idents, self.nested)
    requires !InOneOf(other.oneOfs, tag) && (HasTag(self.fields, tag) || HasTag(other.fields, tag))
    ensures FieldSaid(c, CompareBody(c, self, other), tag, ByTag(self.fields).entries, ByTag(other.fields).entries)
  {
    var tags, otherTags := TakeOutAll(ByTag(self.fields), other.oneOfs), ByTag(other.fields);
    var converted := CompareConverted(c, ByTag(self.fields), other.oneOfs);
    ByTagFrom(self.fields);
    ByTagFrom(other.fields);
    ByTagHas(self.fields);
    ByTagHas(other.fields);
    TakeOutAllSpec(ByTag(self.fields), other.oneOfs);
    ChainSpec(tags.keys, otherTags.keys);
    FieldsSay(converted, Chain(tags.keys, otherTags.keys), tags, otherTags, ByFieldName(self.fields),
              ByFieldName(other.fields), tag);
    var fields, ones := ComparedFields(c, self, other), ComparedOneOfs(c, self, other);
    assert FieldSaid(c, fields, tag, ByTag(self.fields).entries, ByTag(other.fields).entries);
    SaidStays(c, fields, ones, tag, ByTag(self.fields).entries, ByTag(other.fields).entries);
    SaidStays(c, ones, CompareBody(c, self, other), tag, ByTag(self.fields).entries, ByTag(other.fields).entries);
  }

  // ---------------------------------------------------------------- one-ofs

  /** Comparing two one-ofs reports an added member for a number that only the second has and a lost one for a number
      that only the first has. */
  lemma {:induction false} OneOfFieldsSay(c: Ctx, keys: seq<nat>, self: Dict<nat, FieldElement>,
                                          other: Dict<nat, FieldElement>, tag: nat)
    requires Closed(c) && tag in keys
    ensures var d, path := CompareOneOfFields(c, keys, self, other), c.path + [Decimal(tag)];
            && (tag !in self.entries ==> Reported(d, ONE_OF_FIELD_ADD, path))
            && (tag in self.entries && tag !in other.entries ==> Reported(d, ONE_OF_FIELD_DROP, path))
    decreases |keys|
  {
    var init, last := keys[..|keys| - 1], keys[|keys| - 1];
    var before, d := CompareOneOfFields(c, init, self, other), CompareOneOfFields(c, keys, self, other);
    var path := c.path + [Decimal(tag)];
    if last == tag {
      var at := before.Push(Decimal(tag));
      JustReported(at, ONE_OF_FIELD_ADD);
      JustReported(at, ONE_OF_FIELD_DROP);
    } else {
      assert keys == init + [last];
      OneOfFieldsSay(c, init, self, other, tag);
      forall m | Reported(before, m, path) ensures Reported(d, m, path) { StaysReported(before, d, m, path); }
    }
  }

  lemma {:induction false} OneOfsSay(c: Ctx, keys: seq<string>, self: Dict<string, OneOfElement>,
                                     other: Dict<string, OneOfElement>, name: string)
    requires Closed(c) && name in keys
    ensures var d, path := CompareOneOfs(c, keys, self, other), c.path + [name];
            && (name !in self.entries ==> Reported(d, ONE_OF_ADD, path))
            && (name in self.entries && name !in other.entries ==> Reported(d, ONE_OF_DROP, path))
    decreases |keys|
  {
    var init, last := keys[..|keys| - 1], keys[|keys| - 1];
    var before, d := CompareOneOfs(c, init, self, other), CompareOneOfs(c, keys, self, other);
    var path := c.path + [name];
    if last == name {
      var at := before.Push(name);
      JustReported(at, ONE_OF_ADD);
      JustReported(at, ONE_OF_DROP);
    } else {
      assert keys == init + [last];
      OneOfsSay(c, init, self, other, name);
      forall m | Reported(before, m, path) ensures Reported(d, m, path) { StaysReported(before, d, m, path); }
    }
  }

  // ---------------------------------------------------------------- types

  /** A name that only one list has, or both with different kinds of type. */
  ghost predicate NameSaid(c: Ctx, d: Ctx, name: string, a: map<string, TypeElement>, b: map<string, TypeElement>) {
    var path := c.path + [name];
    && (name !in a && name in b ==>
          Reported(d, if b[name].MessageElement? then MESSAGE_ADD else ENUM_ADD, path))
    && (name in a && name !in b ==>
          Reported(d, if a[name].MessageElement? then MESSAGE_DROP else ENUM_DROP, path))
    && (name in a && name in b && a[name].MessageElement? != b[name].MessageElement? ==> Reported(d, TYPE_ALTER, path))
  }

  lemma NameSays(c: Ctx, name: string, self: Dict<string, TypeElement>, other: Dict<string, TypeElement>)
    requires Closed(c) && EntriesKnown(c, self)
    ensures NameSaid(c, CompareName(c, name, self, other), name, self.entries, other.entries)
  {
    var at := c.PushType(name);
    forall m: Modification ensures Reported(at.Add(m).PopType(), m, c.path + [name]) {
      JustReported(at, m);
      assert at.Add(m).PopType().found == at.Add(m).found;
    }
  }

  lemma {:induction false} NamesSay(c: Ctx, keys: seq<string>, self: Dict<string, TypeElement>,
                                    other: Dict<string, TypeElement>, name: string)
    requires Closed(c) && EntriesKnown(c, self) && name in keys
    ensures NameSaid(c, CompareNames(c, keys, self, other), name, self.entries, other.entries)
    decreases |keys|
  {
    var init, last := keys[..|keys| - 1], keys[|keys| - 1];
    var before, d := CompareNames(c, init, self, other), CompareNames(c, keys, self, other);
    if last == name {
      NameSays(before, name, self, other);
    } else {
      assert keys == init + [last];
      NamesSay(c, init, self, other, name);
      var path := c.path + [name];
      forall m | Reported(before, m, path) ensures Reported(d, m, path) { StaysReported(before, d, m, path); }
    }
  }

  /** Comparing two files reports an added message or enum for a name that only the second declares, a dropped one for a
      name that only the first declares, and an altered type where one has a message and the other an enum. */
  lemma FileReports(f: ProtoFile, g: ProtoFile, name: string)
    requires name in TypesByName(f.types).entries || name in TypesByName(g.types).entries
    ensures var c := Start(f, g);
            NameSaid(c, CompareTypeLists(c, f.types, g.types), name, TypesByName(f.types).entries,
                     TypesByName(g.types).entries)
  {
    var c, a, b := Start(f, g), TypesByName(f.types), TypesByName(g.types);
    AddTypesKnown(c.idents, c.selfPackage, Some(c.selfPackage), f.types, c.selfTypes);
    TypesByNameKnown(c.idents, f.types);
    TypesFrom(f.types);
    TypesFrom(g.types);
    ChainSpec(a.keys, b.keys);
    NamesSay(Entered(c, f.types, g.types), Chain(a.keys, b.keys), a, b, name);
  }
}
