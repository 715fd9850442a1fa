/** The comparison as the program runs it: one result object with its path stack, one object with the type tables and
    the lock list, both changed in place by every step. Each method does what its function in ProtobufCompare says. */
module ProtobufComparison {
  import opened Dicts
  import opened SchemaModels
  import opened Text
  import opened ProtobufModel
  import opened ProtobufCompare

  class CompareResult {
    var result: seq<ModificationRecord>
    var path: seq<string>
    var canonicalName: seq<string>

    constructor ()
      ensures result == [] && path == [] && canonicalName == []
    {
      result, path, canonicalName := [], [], [];
    }

    method PushPath(part: string, canonical: bool)
      modifies this
      ensures path == old(path) + [part] && result == old(result)
      ensures canonicalName == if canonical then old(canonicalName) + [part] else old(canonicalName)
    {
      if canonical { canonicalName := canonicalName + [part]; }
      path := path + [part];
    }

    method PopPath(canonical: bool)
      requires path != [] && (canonical ==> canonicalName != [])
      modifies this
      ensures path == old(path)[..|old(path)| - 1] && result == old(result)
      ensures canonicalName == if canonical then old(canonicalName)[..|old(canonicalName)| - 1] else old(canonicalName)
    {
      if canonical { canonicalName := canonicalName[..|canonicalName| - 1]; }
      path := path[..|path| - 1];
    }

    method AddModification(modification: Modification)
      modifies this
      ensures result == old(result) + [ModificationRecord(modification, Dotted(path))]
      ensures path == old(path) && canonicalName == old(canonicalName)
    {
      result := result + [ModificationRecord(modification, Dotted(path))];
    }

    method IsCompatible() returns (all: bool)
      ensures all <==> AllCompatible(result)
    {
      for i := 0 to |result|
        invariant forall j :: 0 <= j < i ==> result[j].modification.IsCompatible()
      {
        if !result[i].modification.IsCompatible() { return false; }
      }
      return true;
    }
  }

  class CompareTypes {
    const selfPackageName: string
    const otherPackageName: string
    var selfTypes: map<string, TypeRecord>
    var otherTypes: map<string, TypeRecord>
    var lockedMessages: seq<int>
    const result: CompareResult
    ghost const idents: set<int>

    constructor (selfPackageName: string, otherPackageName: string, result: CompareResult, ghost idents: set<int>)
      ensures this.result == result && this.idents == idents
      ensures this.selfPackageName == selfPackageName && this.otherPackageName == otherPackageName
      ensures selfTypes == map[] && otherTypes == map[] && lockedMessages == []
    {
      this.selfPackageName, this.otherPackageName, this.result, this.idents := selfPackageName, otherPackageName,
        result, idents;
      selfTypes, otherTypes, lockedMessages := map[], map[], [];
    }

    ghost function State(): Ctx
      reads this, result
    {
      Ctx(selfPackageName, otherPackageName, selfTypes, otherTypes, lockedMessages, result.path, result.canonicalName,
        result.result, idents)
    }

    /** `lock_message`: false when an equal message is being compared already. */
    method LockMessage(ident: int) returns (locked: bool)
      modifies this
      ensures locked <==> ident !in old(lockedMessages)
      ensures State() == if locked then old(State()).(locked := old(lockedMessages) + [ident]) else old(State())
    {
      if ident in lockedMessages { return false; }
      lockedMessages := lockedMessages + [ident];
      return true;
    }

    /** `unlock_message`: takes out the first equal message. */
    method UnlockMessage(ident: int)
      modifies this
      ensures State() == old(State()).(locked := Without(old(lockedMessages), ident))
    {
      var i := 0;
      while i < |lockedMessages| && lockedMessages[i] != ident
        invariant 0 <= i <= |lockedMessages|
        invariant Without(lockedMessages, ident) == lockedMessages[..i] + Without(lockedMessages[i..], ident)
      {
        i := i + 1;
      }
      if i < |lockedMessages| { lockedMessages := lockedMessages[..i] + lockedMessages[i + 1..]; }
    }

    method AddSelfType(package: Option<string>, e: TypeElement)
      modifies this
      ensures State() == old(State()).(selfTypes := AddType(OrEmpty(package), package, e, old(selfTypes)))
    {
      selfTypes := AddAType(OrEmpty(package), package, e, selfTypes);
    }

    method AddOtherType(package: Option<string>, e: TypeElement)
      modifies this
      ensures State() == old(State()).(otherTypes := AddType(OrEmpty(package), package, e, old(otherTypes)))
    {
      otherTypes := AddAType(OrEmpty(package), package, e, otherTypes);
    }
  }

  /** `add_a_type` */
  method AddAType(prefix: string, package: Option<string>, e: TypeElement, types: map<string, TypeRecord>)
    returns (r: map<string, TypeRecord>)
    ensures r == AddType(prefix, package, e, types)
    decreases e
  {
    var name := if prefix != "" then prefix + "." + e.name else e.name;
    r := types[name := TypeRecord(package, e)];
    if e.MessageElement? {
      for i := 0 to |e.nested|
        invariant AddTypes(name, package, e.nested[i..], r) ==
                  AddTypes(name, package, e.nested, types[name := TypeRecord(package, e)])
      {
        r := AddAType(name, package, e.nested[i], r);
      }
    }
  }

  /** `compute_name` */
  method Compute(name: string, path: seq<string>, package: string, types: map<string, TypeRecord>)
    returns (found: Option<string>)
    ensures found == ComputeName(name, path, package, types)
  {
    if name != "" && name[0] == '.' {
      return if name[1..] in types then Some(name[1..]) else None;
    }
    var canonical := path;
    if package != "" { canonical := [package] + canonical; } else { assert [] + path == path; }
    ghost var scope := canonical;
    while canonical != []
      invariant InScope(canonical, name, types) == InScope(scope, name, types)
      decreases |canonical|
    {
      var pretender := Dotted(canonical) + "." + name;
      if pretender in types { return Some(pretender); }
      canonical := canonical[..|canonical| - 1];
    }
    return if name in types then Some(name) else None;
  }

  // ---------------------------------------------------------------- dictionaries

  method CollectFields(fields: seq<FieldElement>)
    returns (tags: Dict<nat, FieldElement>, names: map<string, FieldElement>)
    ensures tags == ByTag(fields) && names == ByFieldName(fields)
  {
    tags, names := Empty(), map[];
    for i := 0 to |fields|
      invariant tags == ByTag(fields[..i]) && names == ByFieldName(fields[..i])
    {
      assert fields[..i + 1][..i] == fields[..i];
      tags, names := tags.Put(fields[i].tag, fields[i]), names[fields[i].name := fields[i]];
    }
    assert fields[..|fields|] == fields;
  }

  method CollectOneOfs(ones: seq<OneOfElement>) returns (byName: Dict<string, OneOfElement>)
    ensures byName == OneOfsByName(ones)
  {
    byName := Empty();
    for i := 0 to |ones|
      invariant byName == OneOfsByName(ones[..i])
    {
      assert ones[..i + 1][..i] == ones[..i];
      byName := byName.Put(ones[i].name, ones[i]);
    }
    assert ones[..|ones|] == ones;
  }

  method CollectConstants(cs: seq<EnumConstant>) returns (byTag: Dict<nat, EnumConstant>)
    ensures byTag == ConstantsByTag(cs)
  {
    byTag := Empty();
    for i := 0 to |cs|
      invariant byTag == ConstantsByTag(cs[..i])
    {
      assert cs[..i + 1][..i] == cs[..i];
      byTag := byTag.Put(cs[i].tag, cs[i]);
    }
    assert cs[..|cs|] == cs;
  }

  // ---------------------------------------------------------------- comparing

  method ConstantCompare(tag: nat, self: Dict<nat, EnumConstant>, other: Dict<nat, EnumConstant>, types: CompareTypes)
    modifies types.result
    ensures types.State() == CompareConstant(old(types.State()), tag, self, other)
  {
    var result := types.result;
    result.PushPath(Decimal(tag), false);
    if tag !in self.entries {
      result.AddModification(ENUM_CONSTANT_ADD);
    } else if tag !in other.entries {
      result.AddModification(ENUM_CONSTANT_DROP);
    } else if self.entries[tag].name != other.entries[tag].name {
      result.AddModification(ENUM_CONSTANT_ALTER);
    }
    result.PopPath(false);
  }

  method EnumCompare(self: TypeElement, other: TypeElement, types: CompareTypes)
    requires self.EnumElement?
    modifies types.result
    ensures types.State() == CompareEnum(old(types.State()), self, other)
  {
    if !other.EnumElement? { types.result.AddModification(TYPE_ALTER); return; }
    var selfTags := CollectConstants(self.constants);
    var otherTags := CollectConstants(other.constants);
    var keys := Chain(selfTags.keys, otherTags.keys);
    for i := 0 to |keys|
      invariant types.State() == CompareConstants(old(types.State()), keys[..i], selfTags, otherTags)
    {
      assert keys[..i + 1][..i] == keys[..i];
      ConstantCompare(keys[i], selfTags, otherTags, types);
    }
    assert keys[..|keys|] == keys;
  }

  method ScalarCompare(fieldLabel: Option<Label>, selfKind: CompatibilityKind, otherKind: CompatibilityKind,
                       otherLabel: Option<Label>, types: CompareTypes)
    modifies types.result
    ensures types.State() == CompareScalar(old(types.State()), fieldLabel, otherLabel, selfKind, otherKind)
  {
    if fieldLabel != otherLabel &&
      selfKind in {VARIANT, KIND_DOUBLE, KIND_FLOAT, KIND_FIXED64, KIND_FIXED32, SVARIANT} {
      types.result.AddModification(FIELD_LABEL_ALTER);
    }
    if selfKind != otherKind { types.result.AddModification(FIELD_KIND_ALTER); }
  }

  method TypeCompare(fieldLabel: Option<Label>, t: ProtoType, u: ProtoType, otherLabel: Option<Label>,
                     types: CompareTypes)
    requires Closed(types.State())
    modifies types, types.result
    ensures types.State() == CompareType(old(types.State()), fieldLabel, t, u, otherLabel)
    decreases types.State().Free(), 1, t
  {
    var result := types.result;
    var selfName := Compute(t.Name(), result.path, types.selfPackageName, types.selfTypes);
    var otherName := Compute(u.Name(), result.path, types.otherPackageName, types.otherTypes);
    var selfIsEnum := selfName.Some? && types.selfTypes[selfName.value].element.EnumElement?;
    var otherIsEnum := otherName.Some? && types.otherTypes[otherName.value].element.EnumElement?;
    var selfIsScalar, otherIsScalar := t.Scalar? || selfIsEnum, u.Scalar? || otherIsEnum;
    if selfIsScalar == otherIsScalar && t.MapOf? == u.MapOf? {
      if t.MapOf? {
        TypeCompare(fieldLabel, t.key, u.key, None, types);
        TypeCompare(fieldLabel, t.value, u.value, None, types);
      } else if selfIsScalar {
        ScalarCompare(fieldLabel, KindOf(t, selfIsEnum), KindOf(u, otherIsEnum), otherLabel, types);
      } else {
        NamedCompare(t, u, types);
      }
    } else {
      result.AddModification(FIELD_KIND_ALTER);
    }
  }

  method NamedCompare(t: ProtoType, u: ProtoType, types: CompareTypes)
    requires Closed(types.State())
    modifies types, types.result
    ensures types.State() == CompareNamed(old(types.State()), t, u)
    decreases types.State().Free(), 0, 2
  {
    var result := types.result;
    var selfName := Compute(t.Name(), result.path, types.selfPackageName, types.selfTypes);
    var otherName := Compute(u.Name(), result.path, types.otherPackageName, types.otherTypes);
    if selfName.None? || otherName.None? {
      if t.Name() != u.Name() { result.AddModification(FIELD_TYPE_ALTER); }
      return;
    }
    var selfRecord, otherRecord := types.selfTypes[selfName.value], types.otherTypes[otherName.value];
    if ShortName(selfName.value, selfRecord) != ShortName(otherName.value, otherRecord) {
      result.AddModification(FIELD_NAME_ALTER);
    } else {
      ElementCompare(selfRecord.element, otherRecord.element, types);
    }
  }

  method FieldCompare(f: FieldElement, g: FieldElement, types: CompareTypes)
    requires Closed(types.State())
    modifies types, types.result
    ensures types.State() == CompareField(old(types.State()), f, g)
    decreases types.State().Free(), 2, 0
  {
    if f.name != g.name { types.result.AddModification(FIELD_NAME_ALTER); }
    TypeCompare(f.fieldLabel, f.elementType, g.elementType, g.fieldLabel, types);
  }

  method OneOfFieldCompare(tag: nat, self: Dict<nat, FieldElement>, other: Dict<nat, FieldElement>, types: CompareTypes)
    requires Closed(types.State())
    modifies types, types.result
    ensures types.State() == CompareOneOfField(old(types.State()), tag, self, other)
    decreases types.State().Free(), 3
  {
    var result := types.result;
    result.PushPath(Decimal(tag), false);
    if tag !in self.entries {
      result.AddModification(ONE_OF_FIELD_ADD);
    } else if tag !in other.entries {
      result.AddModification(ONE_OF_FIELD_DROP);
    } else {
      FieldCompare(self.entries[tag], other.entries[tag], types);
    }
    result.PopPath(false);
  }

  method OneOfCompare(self: OneOfElement, other: OneOfElement, types: CompareTypes)
    requires Closed(types.State())
    modifies types, types.result
    ensures types.State() == CompareOneOf(old(types.State()), self, other)
    decreases types.State().Free(), 5
  {
    var selfTags, _ := CollectFields(self.fields);
    var otherTags, _ := CollectFields(other.fields);
    var keys := Chain(selfTags.keys, otherTags.keys);
    for i := 0 to |keys|
      invariant types.State() == CompareOneOfFields(old(types.State()), keys[..i], selfTags, otherTags)
    {
      assert keys[..i + 1][..i] == keys[..i];
      OneOfFieldCompare(keys[i], selfTags, otherTags, types);
    }
    assert keys[..|keys|] == keys;
  }

  method ElementCompare(self: TypeElement, other: TypeElement, types: CompareTypes)
    requires Closed(types.State()) && Known(types.idents, self)
    modifies types, types.result
    ensures types.State() == CompareElement(old(types.State()), self, other)
    decreases types.State().Free(), 0, 1
  {
    if self.MessageElement? { MessageCompare(self, other, types); } else { EnumCompare(self, other, types); }
  }

  /** The loop over the one-ofs of the other side. */
  method ConvertFields(tags: Dict<nat, FieldElement>, ones: seq<OneOfElement>, types: CompareTypes)
    returns (left: Dict<nat, FieldElement>)
    modifies types.result
    ensures left == TakeOutAll(tags, ones)
    ensures types.State() == CompareConverted(old(types.State()), tags, ones)
  {
    var result := types.result;
    left := tags;
    for i := 0 to |ones|
      invariant left == TakeOutAll(tags, ones[..i])
      invariant types.State() == CompareConverted(old(types.State()), tags, ones[..i])
    {
      var one := ones[i];
      assert ones[..i + 1][..i] == ones[..i];
      ghost var begun := left;
      result.PushPath(one.name, false);
      var count := 0;
      for j := 0 to |one.fields|
        invariant (left, count) == TakeOut(begun, one.fields[..j])
      {
        assert one.fields[..j + 1][..j] == one.fields[..j];
        var tag := one.fields[j].tag;
        if tag in left.entries { left, count := left.Pop(tag), count + 1; }
      }
      assert one.fields[..|one.fields|] == one.fields;
      if count > 1 { result.AddModification(FEW_FIELDS_CONVERTED_TO_ONE_OF); }
      result.PopPath(false);
    }
    assert ones[..|ones|] == ones;
  }

  method PlainCompare(
    tag: nat, tags: Dict<nat, FieldElement>, otherTags: Dict<nat, FieldElement>,
    selfNames: map<string, FieldElement>, otherNames: map<string, FieldElement>, types: CompareTypes)
    requires Closed(types.State())
    modifies types, types.result
    ensures types.State() == ComparePlain(old(types.State()), tag, tags, otherTags, selfNames, otherNames)
    decreases types.State().Free(), 3
  {
    var result := types.result;
    result.PushPath(Decimal(tag), false);
    if TagAltered(tag, tags, selfNames, otherNames) {
      result.PopPath(false);
      result.PushPath(tags.entries[tag].name, false);
      result.AddModification(FIELD_TAG_ALTER);
      result.PopPath(false);
      result.PushPath(Decimal(tag), false);
    }
    if tag !in tags.entries {
      result.AddModification(FIELD_ADD);
    } else if tag !in otherTags.entries {
      result.AddModification(FIELD_DROP);
    } else {
      FieldCompare(tags.entries[tag], otherTags.entries[tag], types);
    }
    result.PopPath(false);
  }

  method FieldsCompare(self: TypeElement, other: TypeElement, types: CompareTypes)
    requires Closed(types.State()) && self.MessageElement? && other.MessageElement?
    modifies types, types.result
    ensures types.State() == ComparedFields(old(types.State()), self, other)
    decreases types.State().Free(), 5
  {
    var allTags, selfNames := CollectFields(self.fields);
    var otherTags, otherNames := CollectFields(other.fields);
    var tags := ConvertFields(allTags, other.oneOfs, types);
    ghost var converted := types.State();
    var keys := Chain(tags.keys, otherTags.keys);
    for i := 0 to |keys|
      invariant types.State() == CompareFields(converted, keys[..i], tags, otherTags, selfNames, otherNames)
    {
      assert keys[..i + 1][..i] == keys[..i];
      PlainCompare(keys[i], tags, otherTags, selfNames, otherNames, types);
    }
    assert keys[..|keys|] == keys;
  }

  method OneOfAtCompare(name: string, self: Dict<string, OneOfElement>, other: Dict<string, OneOfElement>,
                        types: CompareTypes)
    requires Closed(types.State())
    modifies types, types.result
    ensures types.State() == CompareOneOfAt(old(types.State()), name, self, other)
    decreases types.State().Free(), 6
  {
    var result := types.result;
    result.PushPath(name, false);
    if name !in self.entries {
      result.AddModification(ONE_OF_ADD);
    } else if name !in other.entries {
      result.AddModification(ONE_OF_DROP);
    } else {
      OneOfCompare(self.entries[name], other.entries[name], types);
    }
    result.PopPath(false);
  }

  method OneOfsCompare(self: TypeElement, other: TypeElement, types: CompareTypes)
    requires Closed(types.State()) && self.MessageElement? && other.MessageElement?
    modifies types, types.result
    ensures var a, b := OneOfsByName(self.oneOfs), OneOfsByName(other.oneOfs);
            types.State() == CompareOneOfs(old(types.State()), Chain(a.keys, b.keys), a, b)
    decreases types.State().Free(), 7
  {
    var selfOneOfs := CollectOneOfs(self.oneOfs);
    var otherOneOfs := CollectOneOfs(other.oneOfs);
    var keys := Chain(selfOneOfs.keys, otherOneOfs.keys);
    for i := 0 to |keys|
      invariant types.State() == CompareOneOfs(old(types.State()), keys[..i], selfOneOfs, otherOneOfs)
    {
      assert keys[..i + 1][..i] == keys[..i];
      OneOfAtCompare(keys[i], selfOneOfs, otherOneOfs, types);
    }
    assert keys[..|keys|] == keys;
  }

  /** Leaves the path, the canonical name and the lock list as they were, whatever the messages refer to. */
  method MessageCompare(self: TypeElement, other: TypeElement, types: CompareTypes)
    requires Closed(types.State()) && self.MessageElement? && Known(types.idents, self)
    modifies types, types.result
    ensures types.State() == CompareMessage(old(types.State()), self, other)
    ensures types.lockedMessages == old(types.lockedMessages)
    ensures types.result.path == old(types.result.path) && types.result.canonicalName == old(types.result.canonicalName)
    decreases types.State().Free(), 0, 0
  {
    if !other.MessageElement? { types.result.AddModification(TYPE_ALTER); return; }
    ghost var before := types.State();
    var locked := types.LockMessage(self.ident);
    if locked {
      LockShrinks(before, self.ident);
      BodyCompare(self, other, types);
      types.UnlockMessage(self.ident);
      WithoutLast(before.locked, self.ident);
    }
  }

  method BodyCompare(self: TypeElement, other: TypeElement, types: CompareTypes)
    requires Closed(types.State()) && self.MessageElement? && other.MessageElement? &&
             AllKnown(types.idents, self.nested)
    modifies types, types.result
    ensures types.State() == CompareBody(old(types.State()), self, other)
    decreases types.State().Free(), 11
  {
    FieldsCompare(self, other, types);
    OneOfsCompare(self, other, types);
    CompareLists(self.nested, other.nested, types);
  }

  /** `compare_type_lists` */
  method CompareLists(selfs: seq<TypeElement>, others: seq<TypeElement>, types: CompareTypes)
    requires Closed(types.State()) && AllKnown(types.idents, selfs)
    modifies types, types.result
    ensures types.State() == CompareTypeLists(old(types.State()), selfs, others)
    decreases types.State().Free(), 10
  {
    ghost var before := types.State();
    var selfTypes := EnterSelf(selfs, types);
    var otherTypes := EnterOther(others, types);
    AddTypesKnown(before.idents, before.selfPackage, Some(before.selfPackage), selfs, before.selfTypes);
    TypesByNameKnown(before.idents, selfs);
    assert types.State() == Entered(before, selfs, others);
    NamesCompare(selfTypes, otherTypes, types);
  }

  method NameCompare(name: string, self: Dict<string, TypeElement>, other: Dict<string, TypeElement>,
                     types: CompareTypes)
    requires Closed(types.State()) && EntriesKnown(types.State(), self)
    modifies types, types.result
    ensures types.State() == CompareName(old(types.State()), name, self, other)
    decreases types.State().Free(), 8
  {
    var result := types.result;
    result.PushPath(name, true);
    if name !in self.entries && name in other.entries {
      result.AddModification(if other.entries[name].MessageElement? then MESSAGE_ADD else ENUM_ADD);
    } else if name in self.entries && name !in other.entries {
      result.AddModification(if self.entries[name].MessageElement? then MESSAGE_DROP else ENUM_DROP);
    } else if name in self.entries {
      if self.entries[name].MessageElement? == other.entries[name].MessageElement? {
        ElementCompare(self.entries[name], other.entries[name], types);
      } else {
        result.AddModification(TYPE_ALTER);
      }
    }
    result.PopPath(true);
  }

  method NamesCompare(self: Dict<string, TypeElement>, other: Dict<string, TypeElement>, types: CompareTypes)
    requires Closed(types.State()) && EntriesKnown(types.State(), self)
    modifies types, types.result
    ensures types.State() == CompareNames(old(types.State()), Chain(self.keys, other.keys), self, other)
    decreases types.State().Free(), 9
  {
    var keys := Chain(self.keys, other.keys);
    for i := 0 to |keys|
      invariant types.State() == CompareNames(old(types.State()), keys[..i], self, other)
    {
      assert keys[..i + 1][..i] == keys[..i];
      NameCompare(keys[i], self, other, types);
    }
    assert keys[..|keys|] == keys;
  }

  method EnterSelf(es: seq<TypeElement>, types: CompareTypes) returns (byName: Dict<string, TypeElement>)
    modifies types
    ensures byName == TypesByName(es)
    ensures types.State() ==
            old(types.State()).(selfTypes := AddTypes(types.selfPackageName, Some(types.selfPackageName), es,
              old(types.selfTypes)))
  {
    byName := Empty();
    for i := 0 to |es|
      invariant byName == TypesByName(es[..i])
      invariant types.State() == old(types.State()).(selfTypes := types.selfTypes)
      invariant AddTypes(types.selfPackageName, Some(types.selfPackageName), es[i..], types.selfTypes) ==
                AddTypes(types.selfPackageName, Some(types.selfPackageName), es, old(types.selfTypes))
    {
      assert es[..i + 1][..i] == es[..i];
      byName := byName.Put(es[i].name, es[i]);
      types.AddSelfType(Some(types.selfPackageName), es[i]);
    }
    assert es[..|es|] == es;
  }

  method EnterOther(es: seq<TypeElement>, types: CompareTypes) returns (byName: Dict<string, TypeElement>)
    modifies types
    ensures byName == TypesByName(es)
    ensures types.State() ==
            old(types.State()).(otherTypes := AddTypes(types.otherPackageName, Some(types.otherPackageName), es,
              old(types.otherTypes)))
  {
    byName := Empty();
    for i := 0 to |es|
      invariant byName == TypesByName(es[..i])
      invariant types.State() == old(types.State()).(otherTypes := types.otherTypes)
      invariant AddTypes(types.otherPackageName, Some(types.otherPackageName), es[i..], types.otherTypes) ==
                AddTypes(types.otherPackageName, Some(types.otherPackageName), es, old(types.otherTypes))
    {
      assert es[..i + 1][..i] == es[..i];
      byName := byName.Put(es[i].name, es[i]);
      types.AddOtherType(Some(types.otherPackageName), es[i]);
    }
    assert es[..|es|] == es;
  }

  // ---------------------------------------------------------------- files

  method CollectSelf(files: seq<ProtoFile>, types: CompareTypes)
    modifies types
    ensures types.State() == old(types.State()).(selfTypes := Collected(files, old(types.selfTypes)))
    decreases files
  {
    for i := 0 to |files|
      invariant types.State() == old(types.State()).(selfTypes := types.selfTypes)
      invariant Collected(files[i..], types.selfTypes) == Collected(files, old(types.selfTypes))
    {
      var f := files[i];
      ghost var before := types.selfTypes;
      for j := 0 to |f.types|
        invariant types.State() == old(types.State()).(selfTypes := types.selfTypes)
        invariant AddTypes(f.Package(), f.packageName, f.types[j..], types.selfTypes) ==
                  AddTypes(f.Package(), f.packageName, f.types, before)
      {
        types.AddSelfType(f.packageName, f.types[j]);
      }
      assert types.selfTypes == AddTypes(f.Package(), f.packageName, f.types, before);
      assert files[i..][1..] == files[i + 1..];
      if !f.referring { return; }
      CollectSelf(f.dependencies, types);
    }
  }

  method CollectOther(files: seq<ProtoFile>, types: CompareTypes)
    modifies types
    ensures types.State() == old(types.State()).(otherTypes := Collected(files, old(types.otherTypes)))
    decreases files
  {
    for i := 0 to |files|
      invariant types.State() == old(types.State()).(otherTypes := types.otherTypes)
      invariant Collected(files[i..], types.otherTypes) == Collected(files, old(types.otherTypes))
    {
      var f := files[i];
      ghost var before := types.otherTypes;
      for j := 0 to |f.types|
        invariant types.State() == old(types.State()).(otherTypes := types.otherTypes)
        invariant AddTypes(f.Package(), f.packageName, f.types[j..], types.otherTypes) ==
                  AddTypes(f.Package(), f.packageName, f.types, before)
      {
        types.AddOtherType(f.packageName, f.types[j]);
      }
      assert types.otherTypes == AddTypes(f.Package(), f.packageName, f.types, before);
      assert files[i..][1..] == files[i + 1..];
      if !f.referring { return; }
      CollectOther(f.dependencies, types);
    }
  }

  /** `ProtoFileElement.compare` on a fresh result. */
  method FileCompare(f: ProtoFile, g: ProtoFile) returns (result: CompareResult)
    ensures fresh(result) && result.result == CompareFiles(f, g)
    ensures result.path == [] && result.canonicalName == []
  {
    result := new CompareResult();
    if f.packageName != g.packageName { result.AddModification(PACKAGE_ALTER); }
    if f.syntax != g.syntax { result.AddModification(SYNTAX_ALTER); }
    var types := new CompareTypes(f.Package(), g.Package(), result, Start(f, g).idents);
    if f.referring { CollectSelf(f.dependencies, types); }
    if g.referring { CollectOther(g.dependencies, types); }
    assert types.State() == Start(f, g);
    CompareLists(f.types, g.types, types);
  }

  /** `check_protobuf_schema_compatibility`: the writer's schema is compared with the reader's. */
  method CheckCompatibility(reader: ProtoFile, writer: ProtoFile) returns (compatible: bool)
    ensures compatible <==> AllCompatible(CompareFiles(writer, reader))
  {
    var result := FileCompare(writer, reader);
    compatible := result.IsCompatible();
  }
}
