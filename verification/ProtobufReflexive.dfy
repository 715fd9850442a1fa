/** A well-formed schema compared with itself: no modification at all, however its messages refer to each other. */
module ProtobufReflexive {
  import opened Dicts
  import opened SchemaModels
  import opened Text
  import opened ProtobufModel
  import opened ProtobufCompare
  import opened ProtobufTables

  /** The parser refuses a label on a map field. */
  predicate MapUnlabelled(f: FieldElement) { f.elementType.MapOf? ==> f.fieldLabel.None? }

  ghost predicate FieldsOk(fields: seq<FieldElement>) { forall i :: 0 <= i < |fields| ==> MapUnlabelled(fields[i]) }

  /** No map field of the message or of one nested in it has a label. */
  ghost predicate Unlabelled(e: TypeElement) {
    e.MessageElement? ==>
      && FieldsOk(e.fields)
      && (forall i :: 0 <= i < |e.oneOfs| ==> FieldsOk(e.oneOfs[i].fields))
      && forall i :: 0 <= i < |e.nested| ==> Unlabelled(e.nested[i])
  }

  ghost predicate TagsApart(m: TypeElement)
    requires m.MessageElement?
  {
    forall i :: 0 <= i < |m.fields| ==> !InOneOf(m.oneOfs, m.fields[i].tag)
  }

  /** No message uses a field number both for a plain field and inside a one-of. */
  ghost predicate Separate(e: TypeElement) {
    e.MessageElement? ==> TagsApart(e) && forall i :: 0 <= i < |e.nested| ==> Separate(e.nested[i])
  }

  ghost predicate WellFormed(e: TypeElement) { Unlabelled(e) && Separate(e) }

  ghost predicate AllWellFormed(es: seq<TypeElement>) { forall i :: 0 <= i < |es| ==> WellFormed(es[i]) }

  // ---------------------------------------------------------------- the types that fields can name

  /** A set of type names. */
  type Names = string -> bool

  /** Every name in the type is one of these. */
  ghost predicate TypeUses(ns: Names, t: ProtoType) {
    match t
    case Scalar(_) => true
    case Named(n) => ns(n)
    case MapOf(key, value) => TypeUses(ns, key) && TypeUses(ns, value)
  }

  ghost predicate FieldOk(ns: Names, f: FieldElement) { MapUnlabelled(f) && TypeUses(ns, f.elementType) }

  ghost predicate FieldsFine(ns: Names, fields: seq<FieldElement>) {
    forall i :: 0 <= i < |fields| ==> FieldOk(ns, fields[i])
  }

  /** The fields of the message and of those nested in it use only these names. */
  ghost predicate Uses(ns: Names, e: TypeElement) {
    e.MessageElement? ==>
      && (forall i :: 0 <= i < |e.fields| ==> TypeUses(ns, e.fields[i].elementType))
      && (forall i, j :: 0 <= i < |e.oneOfs| && 0 <= j < |e.oneOfs[i].fields| ==>
            TypeUses(ns, e.oneOfs[i].fields[j].elementType))
      && forall i :: 0 <= i < |e.nested| ==> Uses(ns, e.nested[i])
  }

  /** A lookup of the name can end at this key. */
  ghost predicate CanName(name: string, key: string) {
    || key == name
    || (name != "" && name[0] == '.' && name[1..] == key)
    || exists scope: string :: key == scope + "." + name
  }

  ghost predicate Fine(ns: Names, e: TypeElement) { WellFormed(e) && Uses(ns, e) }

  ghost predicate AllFine(ns: Names, es: seq<TypeElement>) { forall i :: 0 <= i < |es| ==> Fine(ns, es[i]) }

  /** Whatever one of these names can stand for is well-formed and uses only these names. */
  ghost predicate TableFine(ns: Names, types: map<string, TypeRecord>) {
    forall key :: key in types && Nameable(ns, key) ==> Fine(ns, types[key].element)
  }

  ghost predicate Nameable(ns: Names, key: string) { exists name :: ns(name) && CanName(name, key) }

  lemma {:induction false} InScopeNames(scope: seq<string>, name: string, types: map<string, TypeRecord>)
    ensures var key := InScope(scope, name, types); key.Some? ==> CanName(name, key.value)
  {
    if scope != [] {
      assert CanName(name, Dotted(scope) + "." + name);
      InScopeNames(scope[..|scope| - 1], name, types);
    }
  }

  /** The name is declared in the scope made of the first `n` parts. */
  predicate DeclaredAt(scope: seq<string>, n: nat, name: string, types: map<string, TypeRecord>) {
    n <= |scope| && KeyIn(scope[..n], name) in types
  }

  lemma DeclaredInit(scope: seq<string>, n: nat, name: string, types: map<string, TypeRecord>)
    requires n < |scope|
    ensures DeclaredAt(scope[..|scope| - 1], n, name, types) == DeclaredAt(scope, n, name, types)
    ensures KeyIn(scope[..|scope| - 1][..n], name) == KeyIn(scope[..n], name)
  {
    assert scope[..|scope| - 1][..n] == scope[..n];
  }

  /** A relative name means the type of the innermost enclosing scope that declares it, and nothing if none does. */
  lemma {:induction false} InnermostScope(scope: seq<string>, name: string, types: map<string, TypeRecord>)
    returns (n: nat)
    ensures var key := InScope(scope, name, types);
            && n <= |scope|
            && (key.Some? ==> key.value == KeyIn(scope[..n], name) && key.value in types)
            && (key.None? ==> n == 0 && !DeclaredAt(scope, 0, name, types))
            && (forall m: nat :: n < m ==> !DeclaredAt(scope, m, name, types))
  {
    assert scope[..|scope|] == scope && scope[..0] == [];
    if scope == [] {
      n := 0;
    } else if KeyIn(scope, name) in types {
      n := |scope|;
    } else {
      n := InnermostScope(scope[..|scope| - 1], name, types);
      DeclaredInit(scope, n, name, types);
      DeclaredInit(scope, 0, name, types);
      forall m: nat | n < m ensures !DeclaredAt(scope, m, name, types) {
        if m < |scope| { DeclaredInit(scope, m, name, types); }
      }
    }
  }

  function KeyIn(scope: seq<string>, name: string): string { if scope == [] then name else Dotted(scope) + "." + name }

  lemma LookupNames(c: Ctx, t: ProtoType)
    ensures SelfName(c, t).Some? ==> CanName(t.Name(), SelfName(c, t).value)
  {
    InScopeNames((if c.selfPackage != "" then [c.selfPackage] else []) + c.path, t.Name(), c.selfTypes);
  }

  /** Both sides of the comparison know the same types. */
  ghost predicate Mirror(ns: Names, c: Ctx) {
    c.selfTypes == c.otherTypes && c.selfPackage == c.otherPackage && Closed(c) && TableFine(ns, c.selfTypes)
  }

  /** Nothing was found between `c` and `d`. */
  ghost predicate Silent(ns: Names, c: Ctx, d: Ctx) { Kept(c, d) && d.found == c.found && Mirror(ns, d) }

  // ---------------------------------------------------------------- the table

  lemma {:induction false} AddTypeFine(ns: Names, prefix: string, package: Option<string>, e: TypeElement,
                                       types: map<string, TypeRecord>)
    requires Fine(ns, e) && TableFine(ns, types)
    ensures TableFine(ns, AddType(prefix, package, e, types))
    decreases e, 1
  {
    var name := if prefix != "" then prefix + "." + e.name else e.name;
    if e.MessageElement? { AddTypesFine(ns, name, package, e.nested, types[name := TypeRecord(package, e)]); }
  }

  lemma {:induction false} AddTypesFine(ns: Names, prefix: string, package: Option<string>, es: seq<TypeElement>,
                                        types: map<string, TypeRecord>)
    requires AllFine(ns, es) && TableFine(ns, types)
    ensures TableFine(ns, AddTypes(prefix, package, es, types))
    decreases es, 0
  {
    if es != [] {
      AddTypeFine(ns, prefix, package, es[0], types);
      AddTypesFine(ns, prefix, package, es[1..], AddType(prefix, package, es[0], types));
    }
  }

  // ---------------------------------------------------------------- enums and fields

  lemma {:induction false} ConstantsSilent(ns: Names, c: Ctx, keys: seq<nat>, self: Dict<nat, EnumConstant>)
    requires Mirror(ns, c) && forall k :: k in keys ==> k in self.entries
    ensures Silent(ns, c, CompareConstants(c, keys, self, self))
  {
    if keys != [] { ConstantsSilent(ns, c, keys[..|keys| - 1], self); }
  }

  lemma EnumSilent(ns: Names, c: Ctx, e: TypeElement)
    requires Mirror(ns, c) && e.EnumElement?
    ensures Silent(ns, c, CompareEnum(c, e, e))
  {
    var a := ConstantsByTag(e.constants);
    ConstantsFrom(e.constants);
    ChainSelf(a.keys);
    ConstantsSilent(ns, c, a.keys, a);
  }

  lemma {:induction false} TypeSilent(ns: Names, c: Ctx, fieldLabel: Option<Label>, t: ProtoType)
    requires Mirror(ns, c) && TypeUses(ns, t) && (t.MapOf? ==> fieldLabel.None?)
    ensures Silent(ns, c, CompareType(c, fieldLabel, t, t, fieldLabel))
    decreases c.Free(), 1, t
  {
    if t.MapOf? {
      TypeSilent(ns, c, None, t.key);
      TypeSilent(ns, CompareType(c, None, t.key, t.key, None), None, t.value);
    } else if !t.Scalar? && !NamesEnum(SelfName(c, t), c.selfTypes) {
      NamedSilent(ns, c, t);
    }
  }

  lemma {:induction false} NamedSilent(ns: Names, c: Ctx, t: ProtoType)
    requires Mirror(ns, c) && t.Named? && ns(t.name) && !NamesEnum(SelfName(c, t), c.selfTypes)
    ensures Silent(ns, c, CompareNamed(c, t, t))
    decreases c.Free(), 0, 2
  {
    var a := SelfName(c, t);
    LookupNames(c, t);
    if a.Some? {
      assert Nameable(ns, a.value);
      MessageSilent(ns, c, c.selfTypes[a.value].element);
    }
  }

  lemma FieldSilent(ns: Names, c: Ctx, f: FieldElement)
    requires Mirror(ns, c) && FieldOk(ns, f)
    ensures Silent(ns, c, CompareField(c, f, f))
    decreases c.Free(), 2, 0
  {
    TypeSilent(ns, c, f.fieldLabel, f.elementType);
  }

  // ---------------------------------------------------------------- one-ofs and messages

  ghost predicate EntriesOk(ns: Names, keys: seq<nat>, d: Dict<nat, FieldElement>) {
    forall k :: k in keys ==> k in d.entries && FieldOk(ns, d.entries[k])
  }

  lemma {:induction false} OneOfFieldsSilent(ns: Names, c: Ctx, keys: seq<nat>, self: Dict<nat, FieldElement>)
    requires Mirror(ns, c) && EntriesOk(ns, keys, self)
    ensures Silent(ns, c, CompareOneOfFields(c, keys, self, self))
    decreases c.Free(), 4, |keys|
  {
    if keys != [] {
      var init, tag := keys[..|keys| - 1], keys[|keys| - 1];
      OneOfFieldsSilent(ns, c, init, self);
      FieldSilent(ns, CompareOneOfFields(c, init, self, self).Push(Decimal(tag)), self.entries[tag]);
    }
  }

  lemma OneOfSilent(ns: Names, c: Ctx, one: OneOfElement)
    requires Mirror(ns, c) && FieldsFine(ns, one.fields)
    ensures Silent(ns, c, CompareOneOf(c, one, one))
    decreases c.Free(), 5
  {
    var a := ByTag(one.fields);
    ByTagFrom(one.fields);
    ChainSelf(a.keys);
    OneOfFieldsSilent(ns, c, a.keys, a);
  }

  lemma {:induction false} OneOfsSilent(ns: Names, c: Ctx, keys: seq<string>, self: Dict<string, OneOfElement>)
    requires Mirror(ns, c) && forall k :: k in keys ==> k in self.entries && FieldsFine(ns, self.entries[k].fields)
    ensures Silent(ns, c, CompareOneOfs(c, keys, self, self))
    decreases c.Free(), 7, |keys|
  {
    if keys != [] {
      var init, name := keys[..|keys| - 1], keys[|keys| - 1];
      OneOfsSilent(ns, c, init, self);
      OneOfSilent(ns, CompareOneOfs(c, init, self, self).Push(name), self.entries[name]);
    }
  }

  lemma {:induction false} ConvertedSilent(c: Ctx, tags: Dict<nat, FieldElement>, ones: seq<OneOfElement>)
    requires forall t :: t in tags.entries ==> !InOneOf(ones, t)
    ensures TakeOutAll(tags, ones) == tags
    ensures CompareConverted(c, tags, ones) == c
  {
    if ones != [] {
      var init, one := ones[..|ones| - 1], ones[|ones| - 1];
      forall t | t in tags.entries ensures !InOneOf(init, t) && !HasTag(one.fields, t) {
        assert !HasTag(ones[|ones| - 1].fields, t);
      }
      ConvertedSilent(c, tags, init);
      NothingTakenOut(tags, one.fields);
    }
  }

  lemma PlainSilent(ns: Names, c: Ctx, tag: nat, tags: Dict<nat, FieldElement>, names: map<string, FieldElement>)
    requires Mirror(ns, c) && tag in tags.entries && FieldOk(ns, tags.entries[tag])
    ensures Silent(ns, c, ComparePlain(c, tag, tags, tags, names, names))
    decreases c.Free(), 3
  {
    var f := tags.entries[tag];
    FieldSilent(ns, c.Push(Decimal(tag)), f);
    assert CompareAltered(c, tag, tags, names, names) == c;
    assert CompareCommon(c, tag, tags, tags) == CompareField(c.Push(Decimal(tag)), f, f).Pop();
  }

  lemma {:induction false} FieldsSilent(ns: Names, c: Ctx, keys: seq<nat>, tags: Dict<nat, FieldElement>,
                                        names: map<string, FieldElement>)
    requires Mirror(ns, c) && EntriesOk(ns, keys, tags)
    ensures Silent(ns, c, CompareFields(c, keys, tags, tags, names, names))
    decreases c.Free(), 4, |keys|
  {
    if keys != [] {
      FieldsSilent(ns, c, keys[..|keys| - 1], tags, names);
      PlainSilent(ns, CompareFields(c, keys[..|keys| - 1], tags, tags, names, names), keys[|keys| - 1], tags, names);
    }
  }

  lemma BodySilent(ns: Names, c: Ctx, m: TypeElement)
    requires Mirror(ns, c) && m.MessageElement? && AllKnown(c.idents, m.nested) && Fine(ns, m)
    ensures Silent(ns, c, CompareBody(c, m, m))
    decreases c.Free(), 11
  {
    var tags, a := ByTag(m.fields), OneOfsByName(m.oneOfs);
    assert FieldsFine(ns, m.fields) && forall i :: 0 <= i < |m.oneOfs| ==> FieldsFine(ns, m.oneOfs[i].fields);
    ByTagFrom(m.fields);
    OneOfsFrom(m.oneOfs);
    ChainSelf(tags.keys);
    ChainSelf(a.keys);
    ConvertedSilent(c, tags, m.oneOfs);
    FieldsSilent(ns, c, tags.keys, tags, ByFieldName(m.fields));
    var fields := CompareFields(c, tags.keys, tags, tags, ByFieldName(m.fields), ByFieldName(m.fields));
    assert fields == ComparedFields(c, m, m);
    OneOfsSilent(ns, fields, a.keys, a);
    ListsSilent(ns, ComparedOneOfs(c, m, m), m.nested);
  }

  lemma MessageSilent(ns: Names, c: Ctx, m: TypeElement)
    requires Mirror(ns, c) && m.MessageElement? && Known(c.idents, m) && Fine(ns, m)
    ensures Silent(ns, c, CompareMessage(c, m, m))
    decreases c.Free(), 0, 0
  {
    if m.ident !in c.locked {
      LockShrinks(c, m.ident);
      WithoutLast(c.locked, m.ident);
      BodySilent(ns, c.(locked := c.locked + [m.ident]), m);
    }
  }

  // ---------------------------------------------------------------- lists of types

  lemma NameSilent(ns: Names, c: Ctx, name: string, self: Dict<string, TypeElement>)
    requires Mirror(ns, c) && EntriesKnown(c, self) && name in self.entries && Fine(ns, self.entries[name])
    ensures Silent(ns, c, CompareName(c, name, self, self))
    decreases c.Free(), 8
  {
    var at, e := c.PushType(name), self.entries[name];
    if e.MessageElement? { MessageSilent(ns, at, e); } else { EnumSilent(ns, at, e); }
    assert CompareName(c, name, self, self) == CompareElement(at, e, e).PopType();
  }

  lemma {:induction false} NamesSilent(ns: Names, c: Ctx, keys: seq<string>, self: Dict<string, TypeElement>)
    requires Mirror(ns, c) && EntriesKnown(c, self) && forall k :: k in keys ==>
               k in self.entries && Fine(ns, self.entries[k])
    ensures Silent(ns, c, CompareNames(c, keys, self, self))
    decreases c.Free(), 9, |keys|
  {
    if keys != [] {
      NamesSilent(ns, c, keys[..|keys| - 1], self);
      NameSilent(ns, CompareNames(c, keys[..|keys| - 1], self, self), keys[|keys| - 1], self);
    }
  }

  lemma {:induction false} ListsSilent(ns: Names, c: Ctx, es: seq<TypeElement>)
    requires Mirror(ns, c) && AllKnown(c.idents, es) && AllFine(ns, es)
    ensures Silent(ns, c, CompareTypeLists(c, es, es))
    decreases c.Free(), 10
  {
    AddTypesKnown(c.idents, c.selfPackage, Some(c.selfPackage), es, c.selfTypes);
    AddTypesFine(ns, c.selfPackage, Some(c.selfPackage), es, c.selfTypes);
    TypesByNameKnown(c.idents, es);
    TypesFrom(es);
    var a := TypesByName(es);
    ChainSelf(a.keys);
    NamesSilent(ns, Entered(c, es, es), a.keys, a);
  }

  // ---------------------------------------------------------------- files

  /** The file and every file it depends on hold well-formed types. */
  ghost predicate FileOk(f: ProtoFile) {
    AllWellFormed(f.types) && forall i :: 0 <= i < |f.dependencies| ==> FileOk(f.dependencies[i])
  }

  ghost function AnyName(): Names { (n: string) => true }

  lemma {:induction false} AnyUsed(e: TypeElement)
    ensures Uses(AnyName(), e)
    decreases e
  {
    forall t: ProtoType ensures TypeUses(AnyName(), t) { AnyTypeUsed(t); }
    if e.MessageElement? {
      forall i | 0 <= i < |e.nested| ensures Uses(AnyName(), e.nested[i]) { AnyUsed(e.nested[i]); }
    }
  }

  lemma {:induction false} AnyTypeUsed(t: ProtoType)
    ensures TypeUses(AnyName(), t)
  {
    if t.MapOf? {
      AnyTypeUsed(t.key);
      AnyTypeUsed(t.value);
    }
  }

  lemma AnyFine(es: seq<TypeElement>)
    requires AllWellFormed(es)
    ensures AllFine(AnyName(), es)
  {
    forall i | 0 <= i < |es| ensures Fine(AnyName(), es[i]) { AnyUsed(es[i]); }
  }

  lemma {:induction false} CollectedFine(files: seq<ProtoFile>, types: map<string, TypeRecord>)
    requires TableFine(AnyName(), types) && forall i :: 0 <= i < |files| ==> FileOk(files[i])
    ensures TableFine(AnyName(), Collected(files, types))
    decreases files
  {
    if files != [] {
      var f := files[0];
      var entered := AddTypes(f.Package(), f.packageName, f.types, types);
      AnyFine(f.types);
      AddTypesFine(AnyName(), f.Package(), f.packageName, f.types, types);
      if f.referring {
        CollectedFine(f.dependencies, entered);
        CollectedFine(files[1..], Collected(f.dependencies, entered));
      }
    }
  }

  /** Comparing a file with itself finds nothing, whatever recursion there is among its messages, if its own types and
      whatever else the names in its fields can stand for are well-formed. */
  lemma NamedTypesSilent(ns: Names, f: ProtoFile)
    requires AllFine(ns, f.types) && TableFine(ns, Dependencies(f))
    ensures CompareFiles(f, f) == []
  {
    ListsSilent(ns, Start(f, f), f.types);
  }

  /** In particular if it and all files it depends on are. */
  lemma SelfComparisonSilent(f: ProtoFile)
    requires FileOk(f)
    ensures CompareFiles(f, f) == []
  {
    AnyFine(f.types);
    CollectedFine(f.dependencies, map[]);
    NamedTypesSilent(AnyName(), f);
  }

  // ---------------------------------------------------------------- a number used twice

  ghost predicate Has(c: Ctx, m: Modification) { exists i :: 0 <= i < |c.found| && c.found[i].modification == m }

  lemma KeptHas(c: Ctx, d: Ctx, m: Modification)
    requires Kept(c, d) && Has(c, m)
    ensures Has(d, m)
  {
    var i :| 0 <= i < |c.found| && c.found[i].modification == m;
    assert d.found[i] == c.found[i];
  }

  lemma AddHas(c: Ctx, m: Modification)
    ensures Has(c.Add(m), m)
  {
    assert c.Add(m).found[|c.found|].modification == m;
  }

  ghost function LockedSet(c: Ctx): set<int> { set i | i in c.locked }

  /** Neither the message nor one nested in it has an identity that is locked by the time it is compared. For
      `LockedSet` empty: no message equals one that encloses it, as equality compares the nested types. */
  ghost predicate Unlocked(locked: set<int>, e: TypeElement)
    decreases e
  {
    e.MessageElement? ==> e.ident !in locked && forall i :: 0 <= i < |e.nested| ==>
        Unlocked(locked + {e.ident}, e.nested[i])
  }

  ghost predicate DistinctNames(es: seq<TypeElement>) {
    forall i, j :: 0 <= i < j < |es| ==> es[i].name != es[j].name
  }

  ghost predicate NamedOnce(e: TypeElement) {
    e.MessageElement? ==> DistinctNames(e.nested) && forall i :: 0 <= i < |e.nested| ==> NamedOnce(e.nested[i])
  }

  lemma {:induction false} EntryOf(es: seq<TypeElement>, k: nat)
    requires DistinctNames(es) && k < |es|
    ensures es[k].name in TypesByName(es).keys && es[k].name in TypesByName(es).entries
    ensures TypesByName(es).entries[es[k].name] == es[k]
  {
    TypesFrom(es[..|es| - 1]);
    if k < |es| - 1 {
      EntryOf(es[..|es| - 1], k);
      assert es[k].name != es[|es| - 1].name;
    }
  }

  lemma AddedFound(
    c: Ctx, tag: nat, tags: Dict<nat, FieldElement>, otherTags: Dict<nat, FieldElement>,
    selfNames: map<string, FieldElement>, otherNames: map<string, FieldElement>)
    requires Closed(c) && tag !in tags.entries
    ensures Has(ComparePlain(c, tag, tags, otherTags, selfNames, otherNames), FIELD_ADD)
  {
    var at := c.Push(Decimal(tag)).Add(FIELD_ADD);
    AddHas(c.Push(Decimal(tag)), FIELD_ADD);
    assert CompareAltered(c, tag, tags, selfNames, otherNames) == c;
    assert CompareCommon(c, tag, tags, otherTags) == at.Pop();
    var i :| 0 <= i < |at.found| && at.found[i].modification == FIELD_ADD;
    assert at.Pop().found[i].modification == FIELD_ADD;
  }

  lemma {:induction false} AddedFieldFound(
    c: Ctx, keys: seq<nat>, tags: Dict<nat, FieldElement>, otherTags: Dict<nat, FieldElement>,
    selfNames: map<string, FieldElement>, otherNames: map<string, FieldElement>, tag: nat)
    requires Closed(c) && tag in keys && tag !in tags.entries
    ensures Has(CompareFields(c, keys, tags, otherTags, selfNames, otherNames), FIELD_ADD)
  {
    var init := keys[..|keys| - 1];
    var before := CompareFields(c, init, tags, otherTags, selfNames, otherNames);
    var d := CompareFields(c, keys, tags, otherTags, selfNames, otherNames);
    if keys[|keys| - 1] == tag {
      AddedFound(before, tag, tags, otherTags, selfNames, otherNames);
      assert d == ComparePlain(before, tag, tags, otherTags, selfNames, otherNames);
    } else {
      assert keys == init + [keys[|keys| - 1]];
      AddedFieldFound(c, init, tags, otherTags, selfNames, otherNames, tag);
      assert before.found <= d.found;
      var i :| 0 <= i < |before.found| && before.found[i].modification == FIELD_ADD;
      assert d.found[i] == before.found[i];
    }
  }

  lemma SharedTagFound(c: Ctx, m: TypeElement)
    requires Closed(c) && m.MessageElement? && AllKnown(c.idents, m.nested) && !TagsApart(m)
    ensures Has(CompareBody(c, m, m), FIELD_ADD)
  {
    var i :| 0 <= i < |m.fields| && InOneOf(m.oneOfs, m.fields[i].tag);
    var all, tags, tag := ByTag(m.fields), TakeOutAll(ByTag(m.fields), m.oneOfs), m.fields[i].tag;
    ByTagFrom(m.fields);
    ByTagHas(m.fields);
    assert HasTag(m.fields, tag);
    TakeOutAllSpec(all, m.oneOfs);
    ChainSpec(tags.keys, all.keys);
    var converted := CompareConverted(c, all, m.oneOfs);
    AddedFieldFound(converted, Chain(tags.keys, all.keys), tags, all, ByFieldName(m.fields), ByFieldName(m.fields),
      tag);
    KeptHas(ComparedFields(c, m, m), ComparedOneOfs(c, m, m), FIELD_ADD);
    KeptHas(ComparedOneOfs(c, m, m), CompareBody(c, m, m), FIELD_ADD);
  }

  lemma {:induction false} OverlapInMessage(c: Ctx, m: TypeElement)
    requires Closed(c) && m.MessageElement? && Known(c.idents, m) && NamedOnce(m) && Unlocked(LockedSet(c), m) &&
             !Separate(m)
    ensures Has(CompareMessage(c, m, m), FIELD_ADD)
    decreases m, 0
  {
    var under := c.(locked := c.locked + [m.ident]);
    LockShrinks(c, m.ident);
    WithoutLast(c.locked, m.ident);
    if !TagsApart(m) {
      SharedTagFound(under, m);
    } else {
      var i :| 0 <= i < |m.nested| && !Separate(m.nested[i]);
      var ones := ComparedOneOfs(under, m, m);
      assert LockedSet(ones) == LockedSet(c) + {m.ident};
      OverlapInList(ones, m.nested, i);
    }
    var body := CompareBody(under, m, m);
    var j :| 0 <= j < |body.found| && body.found[j].modification == FIELD_ADD;
    assert CompareMessage(c, m, m).found[j] == body.found[j];
  }

  lemma {:induction false} OverlapAmongNames(c: Ctx, keys: seq<string>, self: Dict<string, TypeElement>, m: TypeElement)
    requires Closed(c) && EntriesKnown(c, self)
    requires m.name in keys && m.name in self.entries && self.entries[m.name] == m
    requires NamedOnce(m) && Unlocked(LockedSet(c), m) && !Separate(m)
    ensures Has(CompareNames(c, keys, self, self), FIELD_ADD)
    decreases m, 1, |keys|
  {
    var init := keys[..|keys| - 1];
    var before, d := CompareNames(c, init, self, self), CompareNames(c, keys, self, self);
    if keys[|keys| - 1] == m.name {
      var at := before.PushType(m.name);
      OverlapInMessage(at, m);
      var j :| 0 <= j < |CompareMessage(at, m, m).found| && CompareMessage(at, m, m).found[j].modification == FIELD_ADD;
      assert d == CompareName(before, m.name, self, self) == CompareElement(at, m, m).PopType();
    } else {
      assert keys == init + [keys[|keys| - 1]];
      OverlapAmongNames(c, init, self, m);
      var i :| 0 <= i < |before.found| && before.found[i].modification == FIELD_ADD;
      assert before.found <= d.found;
      assert d.found[i] == before.found[i];
    }
  }

  lemma {:induction false} OverlapInList(c: Ctx, es: seq<TypeElement>, k: nat)
    requires Closed(c) && AllKnown(c.idents, es) && DistinctNames(es) && k < |es|
    requires NamedOnce(es[k]) && Unlocked(LockedSet(c), es[k]) && !Separate(es[k])
    ensures Has(CompareTypeLists(c, es, es), FIELD_ADD)
    decreases es[k], 2
  {
    AddTypesKnown(c.idents, c.selfPackage, Some(c.selfPackage), es, c.selfTypes);
    TypesByNameKnown(c.idents, es);
    EntryOf(es, k);
    var a, entered := TypesByName(es), Entered(c, es, es);
    ChainSelf(a.keys);
    assert LockedSet(entered) == LockedSet(c);
    OverlapAmongNames(entered, a.keys, a, es[k]);
  }

  // ---------------------------------------------------------------- exactly when

  /** The name is used in the file after at most `k` steps from its own fields through types that names can stand for.
      */
  ghost predicate ReachedIn(f: ProtoFile, name: string, k: nat)
    decreases k
  {
    if k == 0 then exists i :: 0 <= i < |f.types| && !Uses(AllBut(name), f.types[i])
    else
      || ReachedIn(f, name, k - 1)
      || exists via, key :: ReachedIn(f, via, k - 1) && key in Dependencies(f) && CanName(via, key) &&
           !Uses(AllBut(name), Dependencies(f)[key].element)
  }

  /** All names but this one: what does not get by with them uses it. */
  ghost function AllBut(name: string): Names { (n: string) => n != name }

  ghost function NamesReached(f: ProtoFile): Names { (name: string) => exists k: nat :: ReachedIn(f, name, k) }

  lemma {:induction false} UsedByType(ns: Names, t: ProtoType)
    requires forall n :: !ns(n) ==> TypeUses(AllBut(n), t)
    ensures TypeUses(ns, t)
  {
    match t
    case Scalar(_) =>
    case Named(n) => assert ns(n) || TypeUses(AllBut(n), t);
    case MapOf(key, value) =>
      forall n | !ns(n) ensures TypeUses(AllBut(n), key) && TypeUses(AllBut(n), value) {
        assert TypeUses(AllBut(n), t);
      }
      UsedByType(ns, key);
      UsedByType(ns, value);
  }

  /** What uses no name outside of a set uses only names in it. */
  lemma {:induction false} UsedBy(ns: Names, e: TypeElement)
    requires forall n :: !ns(n) ==> Uses(AllBut(n), e)
    ensures Uses(ns, e)
  {
    if e.MessageElement? {
      forall i | 0 <= i < |e.fields| ensures TypeUses(ns, e.fields[i].elementType) {
        forall n | !ns(n) ensures TypeUses(AllBut(n), e.fields[i].elementType) { assert Uses(AllBut(n), e); }
        UsedByType(ns, e.fields[i].elementType);
      }
      forall i, j | 0 <= i < |e.oneOfs| && 0 <= j < |e.oneOfs[i].fields|
        ensures TypeUses(ns, e.oneOfs[i].fields[j].elementType)
      {
        var t := e.oneOfs[i].fields[j].elementType;
        forall n | !ns(n) ensures TypeUses(AllBut(n), t) { assert Uses(AllBut(n), e); }
        UsedByType(ns, t);
      }
      forall i | 0 <= i < |e.nested| ensures Uses(ns, e.nested[i]) {
        forall n | !ns(n) ensures Uses(AllBut(n), e.nested[i]) { assert Uses(AllBut(n), e); }
        UsedBy(ns, e.nested[i]);
      }
    }
  }

  /** Every dependency type that a name reached from the file can stand for is well-formed. */
  ghost predicate ReachedWellFormed(f: ProtoFile) {
    forall key :: key in Dependencies(f) && Nameable(NamesReached(f), key) ==> WellFormed(Dependencies(f)[key].element)
  }

  lemma OwnReached(f: ProtoFile, i: nat)
    requires i < |f.types|
    ensures Uses(NamesReached(f), f.types[i])
  {
    forall n | !NamesReached(f)(n) ensures Uses(AllBut(n), f.types[i]) { assert !ReachedIn(f, n, 0); }
    UsedBy(NamesReached(f), f.types[i]);
  }

  lemma NextReached(f: ProtoFile, key: string)
    requires key in Dependencies(f) && Nameable(NamesReached(f), key)
    ensures Uses(NamesReached(f), Dependencies(f)[key].element)
  {
    var via :| NamesReached(f)(via) && CanName(via, key);
    var k: nat :| ReachedIn(f, via, k);
    forall n | !NamesReached(f)(n) ensures Uses(AllBut(n), Dependencies(f)[key].element) {
      assert !ReachedIn(f, n, k + 1);
    }
    UsedBy(NamesReached(f), Dependencies(f)[key].element);
  }

  lemma ReachedFine(f: ProtoFile)
    requires AllWellFormed(f.types) && ReachedWellFormed(f)
    ensures AllFine(NamesReached(f), f.types) && TableFine(NamesReached(f), Dependencies(f))
  {
    forall i | 0 <= i < |f.types| ensures Fine(NamesReached(f), f.types[i]) { OwnReached(f, i); }
    forall key | key in Dependencies(f) && Nameable(NamesReached(f), key)
      ensures Fine(NamesReached(f), Dependencies(f)[key].element)
    {
      NextReached(f, key);
    }
  }

  /** When no map field is labelled, a file that agrees with itself has no message that uses a field number both for a
      plain field and inside a one-of; and if the types of its dependencies that its fields can reach are well-formed,
      it agrees with itself exactly then. */
  lemma SelfComparisonSilentIff(f: ProtoFile)
    requires DistinctNames(f.types)
    requires forall i :: 0 <= i < |f.types| ==>
               Unlabelled(f.types[i]) && NamedOnce(f.types[i]) && Unlocked({}, f.types[i])
    ensures CompareFiles(f, f) == [] ==> forall i :: 0 <= i < |f.types| ==> Separate(f.types[i])
    ensures ReachedWellFormed(f) ==>
              (CompareFiles(f, f) == [] <==> forall i :: 0 <= i < |f.types| ==> Separate(f.types[i]))
  {
    if k :| 0 <= k < |f.types| && !Separate(f.types[k]) {
      assert LockedSet(Start(f, f)) == {};
      OverlapInList(Start(f, f), f.types, k);
    } else if ReachedWellFormed(f) {
      ReachedFine(f);
      NamedTypesSilent(NamesReached(f), f);
    }
  }
}
