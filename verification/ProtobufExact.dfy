/** The exact verdict on files whose fields may have message and enum types: for files without nested types in which
    every name of a field is declared and can stand for one type only. */
module ProtobufExact {
  import opened Dicts
  import opened SchemaModels
  import opened Text
  import opened ProtobufModel
  import opened ProtobufCompare
  import opened ProtobufTables
  import opened ProtobufReflexive
  import opened ProtobufVerdict

  // ---------------------------------------------------------------- names that mean the same everywhere

  /** The two type tables of a comparison with their packages; `idents` as in `Ctx`. */
  datatype View = View(
    selfPackage: string, otherPackage: string, selfTypes: map<string, TypeRecord>, otherTypes: map<string, TypeRecord>,
    idents: set<int>)

  /** The name is declared and no other key of the table can be meant by it, in whatever scope. */
  ghost predicate Unambiguous(package: string, types: map<string, TypeRecord>, name: string) {
    var key := ComputeName(name, [], package, types);
    key.Some? && forall k :: k in types && CanName(name, k) ==> k == key.value
  }

  ghost function SelfNames(v: View): Names { (n: string) => Unambiguous(v.selfPackage, v.selfTypes, n) }

  ghost function OtherNames(v: View): Names { (n: string) => Unambiguous(v.otherPackage, v.otherTypes, n) }

  ghost predicate Flat(e: TypeElement) { e.MessageElement? ==> e.nested == [] }

  ghost predicate TableDeclared(ns: Names, types: map<string, TypeRecord>) {
    forall n :: n in types ==> Flat(types[n].element) && Uses(ns, types[n].element)
  }

  ghost predicate Sound(v: View) {
    && TableKnown(v.idents, v.selfTypes) && TableProper(v.selfTypes) && TableProper(v.otherTypes)
    && '<' !in v.selfPackage && '<' !in v.otherPackage
    && TableDeclared(SelfNames(v), v.selfTypes) && TableDeclared(OtherNames(v), v.otherTypes)
  }

  ghost predicate Steady(v: View, c: Ctx) {
    && c.selfPackage == v.selfPackage && c.otherPackage == v.otherPackage
    && c.selfTypes == v.selfTypes && c.otherTypes == v.otherTypes && c.idents == v.idents
  }

  lemma {:induction false} DeeperScope(scope: seq<string>, path: seq<string>, name: string,
                                       types: map<string, TypeRecord>)
    requires InScope(scope, name, types).Some?
    ensures InScope(scope + path, name, types).Some?
    decreases |path|
  {
    if path == [] {
      assert scope + path == scope;
    } else {
      var init := path[..|path| - 1];
      DeeperScope(scope, init, name, types);
      assert (scope + path)[..|scope + path| - 1] == scope + init;
    }
  }

  lemma LookupSteady(path: seq<string>, package: string, types: map<string, TypeRecord>, name: string)
    requires Unambiguous(package, types, name)
    ensures ComputeName(name, path, package, types) == ComputeName(name, [], package, types)
  {
    if !(name != "" && name[0] == '.') {
      var base := if package != "" then [package] else [];
      assert base + [] == base;
      DeeperScope(base, path, name, types);
      InScopeNames(base + path, name, types);
    }
  }

  function SelfAt(v: View, t: ProtoType): Option<string> { ComputeName(t.Name(), [], v.selfPackage, v.selfTypes) }

  function OtherAt(v: View, t: ProtoType): Option<string> { ComputeName(t.Name(), [], v.otherPackage, v.otherTypes) }

  /** What a type that is no map stands for does not depend on where it is used. */
  lemma SameEverywhere(v: View, c: Ctx, t: ProtoType)
    requires Sound(v) && Steady(v, c) && !t.MapOf?
    ensures TypeUses(SelfNames(v), t) ==> SelfName(c, t) == SelfAt(v, t)
    ensures TypeUses(OtherNames(v), t) ==> OtherName(c, t) == OtherAt(v, t)
  {
    if t.Scalar? {
      NotNamed(c, t);
      NotNamed(c.(path := []), t);
    } else {
      if TypeUses(SelfNames(v), t) { LookupSteady(c.path, v.selfPackage, v.selfTypes, t.name); }
      if TypeUses(OtherNames(v), t) { LookupSteady(c.path, v.otherPackage, v.otherTypes, t.name); }
    }
  }

  // ---------------------------------------------------------------- what is incompatible

  ghost function Left(v: View, locked: set<int>): set<int> { v.idents - locked }

  predicate SelfEnum(v: View, t: ProtoType) {
    !t.MapOf? && SelfAt(v, t).Some? && v.selfTypes[SelfAt(v, t).value].element.EnumElement?
  }

  predicate OtherEnum(v: View, t: ProtoType) {
    !t.MapOf? && OtherAt(v, t).Some? && v.otherTypes[OtherAt(v, t).value].element.EnumElement?
  }

  /** The two messages that names stand for are compared: they have the same name in their packages. */
  predicate Paired(v: View, t: ProtoType, u: ProtoType) {
    && t.Named? && u.Named? && SelfAt(v, t).Some? && OtherAt(v, u).Some?
    && var a, b := SelfAt(v, t).value, OtherAt(v, u).value;
       ShortName(a, v.selfTypes[a]) == ShortName(b, v.otherTypes[b])
  }

  /** `locked` are the messages whose comparison is under way. */
  ghost predicate TypeBad(v: View, locked: set<int>, l: Option<Label>, t: ProtoType, u: ProtoType, l': Option<Label>)
    decreases Left(v, locked), 1, t
  {
    var enum, enum' := SelfEnum(v, t), OtherEnum(v, u);
    if t.MapOf? && u.MapOf? then
      TypeBad(v, locked, l, t.key, u.key, None) || TypeBad(v, locked, l, t.value, u.value, None)
    else if t.MapOf? != u.MapOf? || (t.Scalar? || enum) != (u.Scalar? || enum') then true
    else if t.Scalar? || enum then KindBroken(l, KindOf(t, enum), KindOf(u, enum'), l')
    else NamedBad(v, locked, t, u)
  }

  ghost predicate NamedBad(v: View, locked: set<int>, t: ProtoType, u: ProtoType)
    decreases Left(v, locked), 0, 1
  {
    Paired(v, t, u) &&
    MessageBad(v, locked, v.selfTypes[SelfAt(v, t).value].element, v.otherTypes[OtherAt(v, u).value].element)
  }

  ghost predicate MessageBad(v: View, locked: set<int>, self: TypeElement, other: TypeElement)
    decreases Left(v, locked), 0, 0
  {
    && self.MessageElement? && other.MessageElement? && self.ident in v.idents && self.ident !in locked
    && (assert Left(v, locked + {self.ident}) < Left(v, locked) by {
          assert self.ident in Left(v, locked) && self.ident !in Left(v, locked + {self.ident});
        }
        BodyBad(v, locked + {self.ident}, self, other))
  }

  ghost predicate BodyBad(v: View, locked: set<int>, self: TypeElement, other: TypeElement)
    requires self.MessageElement? && other.MessageElement?
    decreases Left(v, locked), 7
  {
    FewConverted(self, other) || SomePlainBad(v, locked, self, other) || SomeSharedBad(v, locked, self, other)
  }

  ghost predicate SomePlainBad(v: View, locked: set<int>, self: TypeElement, other: TypeElement)
    requires self.MessageElement? && other.MessageElement?
    decreases Left(v, locked), 4
  {
    exists t :: PlainBad(v, locked, self, other, t)
  }

  ghost predicate SomeSharedBad(v: View, locked: set<int>, self: TypeElement, other: TypeElement)
    requires self.MessageElement? && other.MessageElement?
    decreases Left(v, locked), 6
  {
    exists n :: SharedBad(v, locked, self, other, n)
  }

  ghost predicate FieldBad(v: View, locked: set<int>, f: FieldElement, g: FieldElement)
    decreases Left(v, locked), 2
  {
    TypeBad(v, locked, f.fieldLabel, f.elementType, g.elementType, g.fieldLabel)
  }

  ghost predicate PlainBad(v: View, locked: set<int>, self: TypeElement, other: TypeElement, t: nat)
    requires self.MessageElement? && other.MessageElement?
    decreases Left(v, locked), 3
  {
    var a, b := ByTag(self.fields).entries, ByTag(other.fields).entries;
    && t in a && !InOneOf(other.oneOfs, t)
    && (TagAltered(t, ByTag(self.fields), ByFieldName(self.fields), ByFieldName(other.fields)) ||
          (t in b && FieldBad(v, locked, a[t], b[t])))
  }

  ghost predicate OneOfBad(v: View, locked: set<int>, self: OneOfElement, other: OneOfElement)
    decreases Left(v, locked), 4
  {
    var a, b := ByTag(self.fields).entries, ByTag(other.fields).entries;
    exists t :: t in a && (t !in b || FieldBad(v, locked, a[t], b[t]))
  }

  ghost predicate SharedBad(v: View, locked: set<int>, self: TypeElement, other: TypeElement, n: string)
    requires self.MessageElement? && other.MessageElement?
    decreases Left(v, locked), 5
  {
    var a, b := OneOfsByName(self.oneOfs).entries, OneOfsByName(other.oneOfs).entries;
    n in a && n in b && OneOfBad(v, locked, a[n], b[n])
  }

  // ---------------------------------------------------------------- the comparison finds exactly that

  /** From `c` to `d` something incompatible was found exactly if `bad`. */
  ghost predicate Exact(v: View, c: Ctx, d: Ctx, bad: bool) {
    Kept(c, d) && Steady(v, d) && (AllCompatible(d.found) <==> AllCompatible(c.found) && !bad)
  }

  lemma ComposeExact(v: View, c: Ctx, b: Ctx, d: Ctx, first: bool, second: bool)
    requires Exact(v, c, b, first) && Exact(v, b, d, second)
    ensures Exact(v, c, d, first || second)
  {
  }

  lemma LocksKept(c: Ctx, d: Ctx)
    requires Kept(c, d)
    ensures LockedSet(d) == LockedSet(c) && d.Free() == c.Free()
  {
  }

  lemma {:induction false} TypeExact(v: View, c: Ctx, l: Option<Label>, t: ProtoType, u: ProtoType, l': Option<Label>)
    requires Sound(v) && Steady(v, c) && TypeUses(SelfNames(v), t) && TypeUses(OtherNames(v), u)
    ensures Exact(v, c, CompareType(c, l, t, u, l'), TypeBad(v, LockedSet(c), l, t, u, l'))
    decreases c.Free(), 1, t
  {
    if t.MapOf? && u.MapOf? {
      NotNamed(c, t);
      NotNamed(c, u);
      var keyed := CompareType(c, l, t.key, u.key, None);
      TypeExact(v, c, l, t.key, u.key, None);
      LocksKept(c, keyed);
      TypeExact(v, keyed, l, t.value, u.value, None);
    } else if t.MapOf? != u.MapOf? {
      AddJudged(c, FIELD_KIND_ALTER);
    } else {
      PartExact(v, c, l, t, u, l');
    }
  }

  /** The three cases of types that are no maps. */
  lemma PartBad(v: View, locked: set<int>, l: Option<Label>, t: ProtoType, u: ProtoType, l': Option<Label>)
    requires !t.MapOf? && !u.MapOf?
    ensures var enum, enum' := SelfEnum(v, t), OtherEnum(v, u);
            TypeBad(v, locked, l, t, u, l') <==>
              if (t.Scalar? || enum) != (u.Scalar? || enum') then true
              else if t.Scalar? || enum then KindBroken(l, KindOf(t, enum), KindOf(u, enum'), l')
              else NamedBad(v, locked, t, u)
  {
  }

  lemma PartCompared(v: View, c: Ctx, l: Option<Label>, t: ProtoType, u: ProtoType, l': Option<Label>)
    requires Sound(v) && Steady(v, c) && !t.MapOf? && !u.MapOf?
    requires TypeUses(SelfNames(v), t) && TypeUses(OtherNames(v), u)
    ensures var enum, enum' := SelfEnum(v, t), OtherEnum(v, u);
            CompareType(c, l, t, u, l') ==
              if (t.Scalar? || enum) != (u.Scalar? || enum') then c.Add(FIELD_KIND_ALTER)
              else if t.Scalar? || enum then CompareScalar(c, l, l', KindOf(t, enum), KindOf(u, enum'))
              else CompareNamed(c, t, u)
  {
    SameEverywhere(v, c, t);
    SameEverywhere(v, c, u);
  }

  lemma {:induction false} PartExact(v: View, c: Ctx, l: Option<Label>, t: ProtoType, u: ProtoType, l': Option<Label>)
    requires Sound(v) && Steady(v, c) && !t.MapOf? && !u.MapOf?
    requires TypeUses(SelfNames(v), t) && TypeUses(OtherNames(v), u)
    ensures Exact(v, c, CompareType(c, l, t, u, l'), TypeBad(v, LockedSet(c), l, t, u, l'))
    decreases c.Free(), 0, 3
  {
    PartBad(v, LockedSet(c), l, t, u, l');
    PartCompared(v, c, l, t, u, l');
    var enum, enum' := SelfEnum(v, t), OtherEnum(v, u);
    AddJudged(c, FIELD_KIND_ALTER);
    ScalarJudged(c, l, l', KindOf(t, enum), KindOf(u, enum'));
    if !t.Scalar? && !enum && !u.Scalar? && !enum' { NamedExact(v, c, t, u); }
  }

  lemma {:induction false} NamedExact(v: View, c: Ctx, t: ProtoType, u: ProtoType)
    requires Sound(v) && Steady(v, c) && t.Named? && u.Named?
    requires TypeUses(SelfNames(v), t) && TypeUses(OtherNames(v), u) && !SelfEnum(v, t) && !OtherEnum(v, u)
    ensures Exact(v, c, CompareNamed(c, t, u), NamedBad(v, LockedSet(c), t, u))
    decreases c.Free(), 0, 2
  {
    SameEverywhere(v, c, t);
    SameEverywhere(v, c, u);
    AddJudged(c, FIELD_NAME_ALTER);
    var a, b := SelfAt(v, t).value, OtherAt(v, u).value;
    if Paired(v, t, u) { MessageExact(v, c, v.selfTypes[a].element, v.otherTypes[b].element); }
  }

  lemma FieldExact(v: View, c: Ctx, f: FieldElement, g: FieldElement)
    requires Sound(v) && Steady(v, c)
    requires TypeUses(SelfNames(v), f.elementType) && TypeUses(OtherNames(v), g.elementType)
    ensures Exact(v, c, CompareField(c, f, g), FieldBad(v, LockedSet(c), f, g))
    decreases c.Free(), 2, 0
  {
    AddJudged(c, FIELD_NAME_ALTER);
    var named := if f.name != g.name then c.Add(FIELD_NAME_ALTER) else c;
    LocksKept(c, named);
    TypeExact(v, named, f.fieldLabel, f.elementType, g.elementType, g.fieldLabel);
  }

  ghost predicate DictUses(ns: Names, d: Dict<nat, FieldElement>) {
    forall t :: t in d.entries ==> TypeUses(ns, d.entries[t].elementType)
  }

  // ---------------------------------------------------------------- one-ofs

  ghost predicate OneOfFieldBad(v: View, locked: set<int>, self: Dict<nat, FieldElement>,
                                other: Dict<nat, FieldElement>,
                                t: nat) {
    t in self.entries && (t !in other.entries || FieldBad(v, locked, self.entries[t], other.entries[t]))
  }

  lemma OneOfFieldExact(v: View, c: Ctx, tag: nat, self: Dict<nat, FieldElement>, other: Dict<nat, FieldElement>)
    requires Sound(v) && Steady(v, c) && DictUses(SelfNames(v), self) && DictUses(OtherNames(v), other)
    ensures Exact(v, c, CompareOneOfField(c, tag, self, other), OneOfFieldBad(v, LockedSet(c), self, other, tag))
    decreases c.Free(), 3
  {
    var at := c.Push(Decimal(tag));
    assert LockedSet(at) == LockedSet(c);
    AddJudged(at, ONE_OF_FIELD_ADD);
    AddJudged(at, ONE_OF_FIELD_DROP);
    if tag in self.entries && tag in other.entries { FieldExact(v, at, self.entries[tag], other.entries[tag]); }
  }

  ghost predicate SomeFieldBad(v: View, locked: set<int>, keys: seq<nat>, self: Dict<nat, FieldElement>,
                               other: Dict<nat, FieldElement>) {
    exists t :: t in keys && OneOfFieldBad(v, locked, self, other, t)
  }

  lemma {:induction false} OneOfFieldsExact(v: View, c: Ctx, keys: seq<nat>, self: Dict<nat, FieldElement>,
                                            other: Dict<nat, FieldElement>)
    requires Sound(v) && Steady(v, c) && DictUses(SelfNames(v), self) && DictUses(OtherNames(v), other)
    ensures Exact(v, c, CompareOneOfFields(c, keys, self, other), SomeFieldBad(v, LockedSet(c), keys, self, other))
    decreases c.Free(), 4, |keys|
  {
    if keys != [] {
      var init, tag := keys[..|keys| - 1], keys[|keys| - 1];
      var before, d := CompareOneOfFields(c, init, self, other), CompareOneOfFields(c, keys, self, other);
      OneOfFieldsExact(v, c, init, self, other);
      LocksKept(c, before);
      OneOfFieldExact(v, before, tag, self, other);
      ComposeExact(v, c, before, d, SomeFieldBad(v, LockedSet(c), init, self, other),
                   OneOfFieldBad(v, LockedSet(c), self, other, tag));
      assert keys == init + [tag];
    }
  }

  ghost predicate FieldsUse(ns: Names, fields: seq<FieldElement>) {
    forall i :: 0 <= i < |fields| ==> TypeUses(ns, fields[i].elementType)
  }

  lemma DictFrom(ns: Names, fields: seq<FieldElement>)
    requires FieldsUse(ns, fields)
    ensures DictUses(ns, ByTag(fields))
  {
    ByTagFrom(fields);
  }

  lemma OneOfExact(v: View, c: Ctx, self: OneOfElement, other: OneOfElement)
    requires Sound(v) && Steady(v, c) && FieldsUse(SelfNames(v), self.fields) && FieldsUse(OtherNames(v), other.fields)
    ensures Exact(v, c, CompareOneOf(c, self, other), OneOfBad(v, LockedSet(c), self, other))
    decreases c.Free(), 5
  {
    var a, b := ByTag(self.fields), ByTag(other.fields);
    ByTagFrom(self.fields);
    DictFrom(SelfNames(v), self.fields);
    DictFrom(OtherNames(v), other.fields);
    ChainSpec(a.keys, b.keys);
    OneOfFieldsExact(v, c, Chain(a.keys, b.keys), a, b);
    SomeFieldMeans(v, LockedSet(c), self, other);
  }

  lemma SomeFieldMeans(v: View, locked: set<int>, self: OneOfElement, other: OneOfElement)
    ensures var a, b := ByTag(self.fields), ByTag(other.fields);
            SomeFieldBad(v, locked, Chain(a.keys, b.keys), a, b) <==> OneOfBad(v, locked, self, other)
  {
    var a, b := ByTag(self.fields), ByTag(other.fields);
    ByTagFrom(self.fields);
    ChainSpec(a.keys, b.keys);
    if OneOfBad(v, locked, self, other) {
      var t :| t in a.entries && (t !in b.entries || FieldBad(v, locked, a.entries[t], b.entries[t]));
      assert t in Chain(a.keys, b.keys) && OneOfFieldBad(v, locked, a, b, t);
    }
  }

  ghost predicate OneOfsUse(ns: Names, d: Dict<string, OneOfElement>) {
    forall n :: n in d.entries ==> FieldsUse(ns, d.entries[n].fields)
  }

  ghost predicate AtBad(v: View, locked: set<int>, self: Dict<string, OneOfElement>, other: Dict<string, OneOfElement>,
                        n: string) {
    n in self.entries && n in other.entries && OneOfBad(v, locked, self.entries[n], other.entries[n])
  }

  lemma OneOfAtExact(v: View, c: Ctx, name: string, self: Dict<string, OneOfElement>, other: Dict<string, OneOfElement>)
    requires Sound(v) && Steady(v, c) && OneOfsUse(SelfNames(v), self) && OneOfsUse(OtherNames(v), other)
    ensures Exact(v, c, CompareOneOfAt(c, name, self, other), AtBad(v, LockedSet(c), self, other, name))
    decreases c.Free(), 6
  {
    var at := c.Push(name);
    assert LockedSet(at) == LockedSet(c);
    AddJudged(at, ONE_OF_ADD);
    AddJudged(at, ONE_OF_DROP);
    if name in self.entries && name in other.entries { OneOfExact(v, at, self.entries[name], other.entries[name]); }
  }

  ghost predicate SomeAtBad(v: View, locked: set<int>, keys: seq<string>, self: Dict<string, OneOfElement>,
                            other: Dict<string, OneOfElement>) {
    exists n :: n in keys && AtBad(v, locked, self, other, n)
  }

  lemma {:induction false} OneOfsExact(v: View, c: Ctx, keys: seq<string>, self: Dict<string, OneOfElement>,
                                       other: Dict<string, OneOfElement>)
    requires Sound(v) && Steady(v, c) && OneOfsUse(SelfNames(v), self) && OneOfsUse(OtherNames(v), other)
    ensures Exact(v, c, CompareOneOfs(c, keys, self, other), SomeAtBad(v, LockedSet(c), keys, self, other))
    decreases c.Free(), 7, |keys|
  {
    if keys != [] {
      var init, name := keys[..|keys| - 1], keys[|keys| - 1];
      var before, d := CompareOneOfs(c, init, self, other), CompareOneOfs(c, keys, self, other);
      OneOfsExact(v, c, init, self, other);
      LocksKept(c, before);
      OneOfAtExact(v, before, name, self, other);
      ComposeExact(v, c, before, d, SomeAtBad(v, LockedSet(c), init, self, other),
                   AtBad(v, LockedSet(c), self, other, name));
      assert keys == init + [name];
    }
  }

  // ---------------------------------------------------------------- plain fields

  ghost predicate KeyBad(
    v: View, locked: set<int>, tags: Dict<nat, FieldElement>, otherTags: Dict<nat, FieldElement>,
    selfNames: map<string, FieldElement>, otherNames: map<string, FieldElement>, t: nat)
  {
    && t in tags.entries
    && (TagAltered(t, tags, selfNames, otherNames) ||
          (t in otherTags.entries && FieldBad(v, locked, tags.entries[t], otherTags.entries[t])))
  }

  lemma CommonExact(v: View, c: Ctx, tag: nat, tags: Dict<nat, FieldElement>, otherTags: Dict<nat, FieldElement>)
    requires Sound(v) && Steady(v, c) && DictUses(SelfNames(v), tags) && DictUses(OtherNames(v), otherTags)
    ensures Exact(v, c, CompareCommon(c, tag, tags, otherTags),
                  tag in tags.entries && tag in otherTags.entries &&
                    FieldBad(v, LockedSet(c), tags.entries[tag], otherTags.entries[tag]))
    decreases c.Free(), 2, 1
  {
    var at := c.Push(Decimal(tag));
    assert LockedSet(at) == LockedSet(c);
    if tag !in tags.entries {
      AddJudged(at, FIELD_ADD);
    } else if tag !in otherTags.entries {
      AddJudged(at, FIELD_DROP);
    } else {
      FieldExact(v, at, tags.entries[tag], otherTags.entries[tag]);
      assert CompareCommon(c, tag, tags, otherTags) ==
             CompareField(at, tags.entries[tag], otherTags.entries[tag]).Pop();
    }
  }

  lemma PlainExact(
    v: View, c: Ctx, tag: nat, tags: Dict<nat, FieldElement>, otherTags: Dict<nat, FieldElement>,
    selfNames: map<string, FieldElement>, otherNames: map<string, FieldElement>)
    requires Sound(v) && Steady(v, c) && DictUses(SelfNames(v), tags) && DictUses(OtherNames(v), otherTags)
    ensures Exact(v, c, ComparePlain(c, tag, tags, otherTags, selfNames, otherNames),
                  KeyBad(v, LockedSet(c), tags, otherTags, selfNames, otherNames, tag))
    decreases c.Free(), 3
  {
    var altered := CompareAltered(c, tag, tags, selfNames, otherNames);
    if TagAltered(tag, tags, selfNames, otherNames) { AddJudged(c.Push(tags.entries[tag].name), FIELD_TAG_ALTER); }
    LocksKept(c, altered);
    CommonExact(v, altered, tag, tags, otherTags);
    ComposeExact(v, c, altered, CompareCommon(altered, tag, tags, otherTags),
                 TagAltered(tag, tags, selfNames, otherNames),
                 tag in tags.entries && tag in otherTags.entries &&
                   FieldBad(v, LockedSet(c), tags.entries[tag], otherTags.entries[tag]));
  }

  ghost predicate SomeKeyBad(
    v: View, locked: set<int>, keys: seq<nat>, tags: Dict<nat, FieldElement>, otherTags: Dict<nat, FieldElement>,
    selfNames: map<string, FieldElement>, otherNames: map<string, FieldElement>)
  {
    exists t :: t in keys && KeyBad(v, locked, tags, otherTags, selfNames, otherNames, t)
  }

  lemma {:induction false} FieldsExact(
    v: View, c: Ctx, keys: seq<nat>, tags: Dict<nat, FieldElement>, otherTags: Dict<nat, FieldElement>,
    selfNames: map<string, FieldElement>, otherNames: map<string, FieldElement>)
    requires Sound(v) && Steady(v, c) && DictUses(SelfNames(v), tags) && DictUses(OtherNames(v), otherTags)
    ensures Exact(v, c, CompareFields(c, keys, tags, otherTags, selfNames, otherNames),
                  SomeKeyBad(v, LockedSet(c), keys, tags, otherTags, selfNames, otherNames))
    decreases c.Free(), 4, |keys|
  {
    if keys != [] {
      var init, tag := keys[..|keys| - 1], keys[|keys| - 1];
      var before := CompareFields(c, init, tags, otherTags, selfNames, otherNames);
      var d := CompareFields(c, keys, tags, otherTags, selfNames, otherNames);
      FieldsExact(v, c, init, tags, otherTags, selfNames, otherNames);
      LocksKept(c, before);
      PlainExact(v, before, tag, tags, otherTags, selfNames, otherNames);
      ComposeExact(v, c, before, d, SomeKeyBad(v, LockedSet(c), init, tags, otherTags, selfNames, otherNames),
                   KeyBad(v, LockedSet(c), tags, otherTags, selfNames, otherNames, tag));
      assert keys == init + [tag];
    }
  }

  // ---------------------------------------------------------------- messages

  lemma PlainMeans(v: View, locked: set<int>, self: TypeElement, other: TypeElement)
    requires self.MessageElement? && other.MessageElement?
    ensures var tags, otherTags := TakeOutAll(ByTag(self.fields), other.oneOfs), ByTag(other.fields);
            SomePlainBad(v, locked, self, other) <==>
              SomeKeyBad(v, locked, Chain(tags.keys, otherTags.keys), tags, otherTags, ByFieldName(self.fields),
                         ByFieldName(other.fields))
  {
    var tags, otherTags := TakeOutAll(ByTag(self.fields), other.oneOfs), ByTag(other.fields);
    var keys, names, names' := Chain(tags.keys, otherTags.keys), ByFieldName(self.fields), ByFieldName(other.fields);
    ByTagFrom(self.fields);
    ByTagFrom(other.fields);
    TakeOutAllSpec(ByTag(self.fields), other.oneOfs);
    ChainSpec(tags.keys, otherTags.keys);
    if t :| PlainBad(v, locked, self, other, t) {
      assert t in keys && KeyBad(v, locked, tags, otherTags, names, names', t);
    }
    if t :| t in keys && KeyBad(v, locked, tags, otherTags, names, names', t) {
      assert PlainBad(v, locked, self, other, t);
    }
  }

  lemma SharedMeans(v: View, locked: set<int>, self: TypeElement, other: TypeElement)
    requires self.MessageElement? && other.MessageElement?
    ensures var a, b := OneOfsByName(self.oneOfs), OneOfsByName(other.oneOfs);
            SomeSharedBad(v, locked, self, other) <==> SomeAtBad(v, locked, Chain(a.keys, b.keys), a, b)
  {
    var a, b := OneOfsByName(self.oneOfs), OneOfsByName(other.oneOfs);
    OneOfsFrom(self.oneOfs);
    ChainSpec(a.keys, b.keys);
    if n :| SharedBad(v, locked, self, other, n) {
      assert n in Chain(a.keys, b.keys) && AtBad(v, locked, a, b, n);
    }
    if n :| n in Chain(a.keys, b.keys) && AtBad(v, locked, a, b, n) {
      assert SharedBad(v, locked, self, other, n);
    }
  }

  lemma DictsUse(ns: Names, e: TypeElement, ones: seq<OneOfElement>)
    requires e.MessageElement? && Uses(ns, e)
    ensures FieldsUse(ns, e.fields) && DictUses(ns, ByTag(e.fields)) && DictUses(ns, TakeOutAll(ByTag(e.fields), ones))
    ensures OneOfsUse(ns, OneOfsByName(e.oneOfs))
  {
    DictFrom(ns, e.fields);
    ByTagFrom(e.fields);
    TakeOutAllSpec(ByTag(e.fields), ones);
    OneOfsFrom(e.oneOfs);
  }

  lemma PlainFieldsExact(v: View, c: Ctx, self: TypeElement, other: TypeElement)
    requires Sound(v) && Steady(v, c) && self.MessageElement? && other.MessageElement?
    requires Uses(SelfNames(v), self) && Uses(OtherNames(v), other)
    ensures Exact(v, c, ComparedFields(c, self, other),
                  FewConverted(self, other) || SomePlainBad(v, LockedSet(c), self, other))
    decreases c.Free(), 5, 1
  {
    var tags, otherTags := TakeOutAll(ByTag(self.fields), other.oneOfs), ByTag(other.fields);
    var converted := CompareConverted(c, ByTag(self.fields), other.oneOfs);
    FewConvertedMeans(self, other);
    ConvertedJudged(c, ByTag(self.fields), other.oneOfs);
    LocksKept(c, converted);
    DictsUse(SelfNames(v), self, other.oneOfs);
    DictsUse(OtherNames(v), other, []);
    PlainMeans(v, LockedSet(c), self, other);
    FieldsExact(v, converted, Chain(tags.keys, otherTags.keys), tags, otherTags, ByFieldName(self.fields),
                ByFieldName(other.fields));
    ComposeExact(v, c, converted, ComparedFields(c, self, other), FewConverted(self, other),
                 SomePlainBad(v, LockedSet(c), self, other));
  }

  lemma EmptyLists(c: Ctx)
    requires Closed(c)
    ensures CompareTypeLists(c, [], []) == c
  {
    assert Entered(c, [], []) == c;
    assert Chain<string>([], []) == [];
  }

  lemma OwnFieldsExact(v: View, c: Ctx, self: TypeElement, other: TypeElement)
    requires Sound(v) && Steady(v, c) && self.MessageElement? && other.MessageElement?
    requires Uses(SelfNames(v), self) && Uses(OtherNames(v), other)
    ensures Exact(v, c, ComparedOneOfs(c, self, other), BodyBad(v, LockedSet(c), self, other))
    decreases c.Free(), 8
  {
    var a, b := OneOfsByName(self.oneOfs), OneOfsByName(other.oneOfs);
    var fields, ones := ComparedFields(c, self, other), ComparedOneOfs(c, self, other);
    PlainFieldsExact(v, c, self, other);
    LocksKept(c, fields);
    DictsUse(SelfNames(v), self, []);
    DictsUse(OtherNames(v), other, []);
    OneOfsExact(v, fields, Chain(a.keys, b.keys), a, b);
    SharedMeans(v, LockedSet(c), self, other);
    ComposeExact(v, c, fields, ones, FewConverted(self, other) || SomePlainBad(v, LockedSet(c), self, other),
                 SomeSharedBad(v, LockedSet(c), self, other));
  }

  lemma BodyExact(v: View, c: Ctx, self: TypeElement, other: TypeElement)
    requires Sound(v) && Steady(v, c) && self.MessageElement? && other.MessageElement? && Flat(self) && Flat(other)
    requires Uses(SelfNames(v), self) && Uses(OtherNames(v), other)
    ensures Exact(v, c, CompareBody(c, self, other), BodyBad(v, LockedSet(c), self, other))
    decreases c.Free(), 11
  {
    OwnFieldsExact(v, c, self, other);
    EmptyLists(ComparedOneOfs(c, self, other));
  }

  /** For any two messages, whatever is locked, something incompatible is found exactly if they are bad. */
  lemma {:induction false} MessageExact(v: View, c: Ctx, self: TypeElement, other: TypeElement)
    requires Sound(v) && Steady(v, c) && self.MessageElement? && other.MessageElement? && Flat(self) && Flat(other)
    requires Known(c.idents, self) && Uses(SelfNames(v), self) && Uses(OtherNames(v), other)
    ensures Exact(v, c, CompareMessage(c, self, other), MessageBad(v, LockedSet(c), self, other))
    decreases c.Free(), 0, 0
  {
    if self.ident !in c.locked {
      var under := c.(locked := c.locked + [self.ident]);
      LockShrinks(c, self.ident);
      WithoutLast(c.locked, self.ident);
      BodyExact(v, under, self, other);
      assert LockedSet(under) == LockedSet(c) + {self.ident};
    }
  }

  // ---------------------------------------------------------------- files

  /** The tables of a comparison of two files, once their own types have been entered. */
  ghost function ViewOf(f: ProtoFile, g: ProtoFile): View {
    var c := Entered(Start(f, g), f.types, g.types);
    View(c.selfPackage, c.otherPackage, c.selfTypes, c.otherTypes, c.idents)
  }

  ghost predicate Declared(ns: Names, es: seq<TypeElement>) {
    forall i :: 0 <= i < |es| ==> Flat(es[i]) && Uses(ns, es[i])
  }

  /** No nested types, proper names, and every name of a field declared and unambiguous on its side. */
  ghost predicate Plainly(f: ProtoFile, g: ProtoFile) {
    var v := ViewOf(f, g);
    Sound(v) && Declared(SelfNames(v), f.types) && Declared(OtherNames(v), g.types)
  }

  ghost predicate NameBad(v: View, self: Dict<string, TypeElement>, other: Dict<string, TypeElement>, n: string) {
    && n in self.entries && self.entries[n].MessageElement?
    && (n !in other.entries ||
          (other.entries[n].MessageElement? && MessageBad(v, {}, self.entries[n], other.entries[n])))
  }

  ghost predicate EntriesDeclared(ns: Names, d: Dict<string, TypeElement>) {
    forall n :: n in d.entries ==> Flat(d.entries[n]) && Uses(ns, d.entries[n])
  }

  lemma NameExact(v: View, c: Ctx, name: string, self: Dict<string, TypeElement>, other: Dict<string, TypeElement>)
    requires Sound(v) && Steady(v, c) && EntriesKnown(c, self) && LockedSet(c) == {}
    requires EntriesDeclared(SelfNames(v), self) && EntriesDeclared(OtherNames(v), other)
    ensures Exact(v, c, CompareName(c, name, self, other), NameBad(v, self, other, name))
  {
    var at := c.PushType(name);
    assert LockedSet(at) == {};
    if name in self.entries && name in other.entries {
      var a, b := self.entries[name], other.entries[name];
      if a.MessageElement? && b.MessageElement? {
        MessageExact(v, at, a, b);
        assert CompareName(c, name, self, other) == CompareMessage(at, a, b).PopType();
      } else if a.EnumElement? && b.EnumElement? {
        EnumJudged(at, a, b);
        assert CompareName(c, name, self, other) == CompareEnum(at, a, b).PopType();
      } else {
        AddJudged(at, TYPE_ALTER);
      }
    } else {
      OneSidedExact(v, c, name, self, other);
    }
  }

  lemma OneSidedExact(v: View, c: Ctx, name: string, self: Dict<string, TypeElement>, other: Dict<string, TypeElement>)
    requires Sound(v) && Steady(v, c) && EntriesKnown(c, self) && (name !in self.entries || name !in other.entries)
    ensures Exact(v, c, CompareName(c, name, self, other), NameBad(v, self, other, name))
  {
    var at := c.PushType(name);
    AddJudged(at, MESSAGE_ADD);
    AddJudged(at, ENUM_ADD);
    AddJudged(at, MESSAGE_DROP);
    AddJudged(at, ENUM_DROP);
  }

  ghost predicate SomeNameBad(v: View, keys: seq<string>, self: Dict<string, TypeElement>,
                              other: Dict<string, TypeElement>) {
    exists n :: n in keys && NameBad(v, self, other, n)
  }

  lemma {:induction false} NamesExact(v: View, c: Ctx, keys: seq<string>, self: Dict<string, TypeElement>,
                                      other: Dict<string, TypeElement>)
    requires Sound(v) && Steady(v, c) && EntriesKnown(c, self) && LockedSet(c) == {}
    requires EntriesDeclared(SelfNames(v), self) && EntriesDeclared(OtherNames(v), other)
    ensures Exact(v, c, CompareNames(c, keys, self, other), SomeNameBad(v, keys, self, other))
    decreases |keys|
  {
    if keys != [] {
      var init, name := keys[..|keys| - 1], keys[|keys| - 1];
      var before, d := CompareNames(c, init, self, other), CompareNames(c, keys, self, other);
      NamesExact(v, c, init, self, other);
      LocksKept(c, before);
      NameExact(v, before, name, self, other);
      ComposeExact(v, c, before, d, SomeNameBad(v, init, self, other), NameBad(v, self, other, name));
      assert keys == init + [name];
    }
  }

  /** A message of the first file is gone, or bad against the one of its name. */
  ghost predicate FileBad(f: ProtoFile, g: ProtoFile) {
    exists n :: NameBad(ViewOf(f, g), TypesByName(f.types), TypesByName(g.types), n)
  }

  /** Two such files are called compatible if and only if that is not so. */
  lemma FileExact(f: ProtoFile, g: ProtoFile)
    requires Plainly(f, g)
    ensures AllCompatible(CompareFiles(f, g)) <==> !FileBad(f, g)
  {
    var v, c := ViewOf(f, g), Start(f, g);
    var a, b, entered := TypesByName(f.types), TypesByName(g.types), Entered(c, f.types, g.types);
    StartCompatible(f, g);
    AddTypesKnown(c.idents, c.selfPackage, Some(c.selfPackage), f.types, c.selfTypes);
    TypesByNameKnown(c.idents, f.types);
    TypesFrom(f.types);
    TypesFrom(g.types);
    ChainSpec(a.keys, b.keys);
    assert LockedSet(entered) == {};
    NamesExact(v, entered, Chain(a.keys, b.keys), a, b);
    assert FileBad(f, g) <==> SomeNameBad(v, Chain(a.keys, b.keys), a, b);
  }
}
