/** The structural comparison of protobuf definitions, as a function of everything it reads and changes:
    the type tables, the lock list, the path stack and the modifications found. */
module ProtobufCompare {
  import opened Dicts
  import opened SchemaModels
  import opened Text
  import opened ProtobufModel

  /** `CompareTypes` and its `CompareResult`. `idents` is every identity a message of the self side can have;
      it never changes and only serves to show that the recursion ends. */
  datatype Ctx = Ctx(
    selfPackage: string,
    otherPackage: string,
    selfTypes: map<string, TypeRecord>,
    otherTypes: map<string, TypeRecord>,
    locked: seq<int>,
    path: seq<string>,
    canonical: seq<string>,
    found: seq<ModificationRecord>,
    idents: set<int>)
  {
    function Push(part: string): Ctx { this.(path := path + [part]) }

    function Pop(): Ctx
      requires path != []
    {
      this.(path := path[..|path| - 1])
    }

    /** `push_path` and `pop_path` with the flag that also moves the canonical name. */
    function PushType(name: string): Ctx { this.(path := path + [name], canonical := canonical + [name]) }

    function PopType(): Ctx
      requires path != [] && canonical != []
    {
      this.(path := path[..|path| - 1], canonical := canonical[..|canonical| - 1])
    }

    function Add(m: Modification): Ctx { this.(found := found + [ModificationRecord(m, Dotted(path))]) }

    /** The message identities that are not locked. */
    ghost function Free(): set<int> { idents - (set i | i in locked) }
  }

  /** The message and everything nested in it have identities among `idents`. */
  ghost predicate Known(idents: set<int>, e: TypeElement) {
    e.MessageElement? ==> e.ident in idents && forall i :: 0 <= i < |e.nested| ==> Known(idents, e.nested[i])
  }

  ghost predicate AllKnown(idents: set<int>, es: seq<TypeElement>) {
    forall i :: 0 <= i < |es| ==> Known(idents, es[i])
  }

  ghost predicate Closed(c: Ctx) { forall n :: n in c.selfTypes ==> Known(c.idents, c.selfTypes[n].element) }

  /** `d` differs from `c` at most in its tables and in modifications found since. */
  ghost predicate Kept(c: Ctx, d: Ctx) {
    && d == c.(selfTypes := d.selfTypes, otherTypes := d.otherTypes, found := d.found)
    && c.found <= d.found
    && (Closed(c) ==> Closed(d))
  }

  // ---------------------------------------------------------------- looking types up

  /** The while loop of `compute_name`: the innermost enclosing scope that declares the name. */
  function InScope(scope: seq<string>, name: string, types: map<string, TypeRecord>): Option<string> {
    if scope == [] then if name in types then Some(name) else None
    else
      var pretender := Dotted(scope) + "." + name;
      if pretender in types then Some(pretender) else InScope(scope[..|scope| - 1], name, types)
  }

  function ComputeName(name: string, path: seq<string>, package: string,
                       types: map<string, TypeRecord>): (found: Option<string>)
    ensures found.Some? ==> found.value in types
  {
    if name != "" && name[0] == '.' then if name[1..] in types then Some(name[1..]) else None
    else
      InScopeFound((if package != "" then [package] else []) + path, name, types);
      InScope((if package != "" then [package] else []) + path, name, types)
  }

  lemma {:induction false} InScopeFound(scope: seq<string>, name: string, types: map<string, TypeRecord>)
    ensures InScope(scope, name, types).Some? ==> InScope(scope, name, types).value in types
  {
    if scope != [] { InScopeFound(scope[..|scope| - 1], name, types); }
  }

  function SelfName(c: Ctx, t: ProtoType): (found: Option<string>)
    ensures found.Some? ==> found.value in c.selfTypes
  {
    ComputeName(t.Name(), c.path, c.selfPackage, c.selfTypes)
  }

  function OtherName(c: Ctx, t: ProtoType): (found: Option<string>)
    ensures found.Some? ==> found.value in c.otherTypes
  {
    ComputeName(t.Name(), c.path, c.otherPackage, c.otherTypes)
  }

  /** The name without its package and the dot after it; for the empty package, without its first character. */
  function ShortName(name: string, record: TypeRecord): string {
    if record.packageName.Some? && record.packageName.value <= name then
      var n := |record.packageName.value|;
      if n + 1 <= |name| then name[n + 1..] else ""
    else name
  }

  /** `add_a_type`: enters a type and the types nested in it. */
  function AddType(prefix: string, package: Option<string>, e: TypeElement,
                   types: map<string, TypeRecord>): map<string, TypeRecord>
    decreases e, 1
  {
    var name := if prefix != "" then prefix + "." + e.name else e.name;
    var entered := types[name := TypeRecord(package, e)];
    if e.MessageElement? then AddTypes(name, package, e.nested, entered) else entered
  }

  function AddTypes(prefix: string, package: Option<string>, es: seq<TypeElement>,
                    types: map<string, TypeRecord>): map<string, TypeRecord>
    decreases es, 0
  {
    if es == [] then types else AddTypes(prefix, package, es[1..], AddType(prefix, package, es[0], types))
  }

  ghost predicate TableKnown(idents: set<int>, types: map<string, TypeRecord>) {
    forall n :: n in types ==> Known(idents, types[n].element)
  }

  lemma {:induction false} AddTypeKnown(idents: set<int>, prefix: string, package: Option<string>, e: TypeElement,
                                        types: map<string, TypeRecord>)
    requires Known(idents, e) && TableKnown(idents, types)
    ensures TableKnown(idents, AddType(prefix, package, e, types))
    decreases e, 1
  {
    var name := if prefix != "" then prefix + "." + e.name else e.name;
    if e.MessageElement? { AddTypesKnown(idents, name, package, e.nested, types[name := TypeRecord(package, e)]); }
  }

  lemma {:induction false} AddTypesKnown(idents: set<int>, prefix: string, package: Option<string>,
                                         es: seq<TypeElement>, types: map<string, TypeRecord>)
    requires AllKnown(idents, es) && TableKnown(idents, types)
    ensures TableKnown(idents, AddTypes(prefix, package, es, types))
    decreases es, 0
  {
    if es != [] {
      AddTypeKnown(idents, prefix, package, es[0], types);
      AddTypesKnown(idents, prefix, package, es[1..], AddType(prefix, package, es[0], types));
    }
  }

  // ---------------------------------------------------------------- dicts by tag and by name

  function ByTag(fields: seq<FieldElement>): Dict<nat, FieldElement> {
    if fields == [] then Empty() else ByTag(fields[..|fields| - 1]).Put(fields[|fields| - 1].tag, fields[|fields| - 1])
  }

  function ByFieldName(fields: seq<FieldElement>): map<string, FieldElement> {
    if fields == [] then map[]
      else ByFieldName(fields[..|fields| - 1])[fields[|fields| - 1].name := fields[|fields| - 1]]
  }

  function OneOfsByName(ones: seq<OneOfElement>): Dict<string, OneOfElement> {
    if ones == [] then Empty() else OneOfsByName(ones[..|ones| - 1]).Put(ones[|ones| - 1].name, ones[|ones| - 1])
  }

  function TypesByName(es: seq<TypeElement>): Dict<string, TypeElement> {
    if es == [] then Empty() else TypesByName(es[..|es| - 1]).Put(es[|es| - 1].name, es[|es| - 1])
  }

  function ConstantsByTag(cs: seq<EnumConstant>): Dict<nat, EnumConstant> {
    if cs == [] then Empty() else ConstantsByTag(cs[..|cs| - 1]).Put(cs[|cs| - 1].tag, cs[|cs| - 1])
  }

  function Minus<K(==)>(keys: seq<K>, drop: seq<K>): seq<K> {
    if keys == [] then [] else Minus(keys[..|keys| - 1], drop) + if keys[|keys| - 1] in drop then []
      else [keys[|keys| - 1]]
  }

  /** `chain(a.keys(), b.keys() - a.keys())`; the second part is a set in the code, here it keeps its order. */
  function Chain<K(==)>(a: seq<K>, b: seq<K>): seq<K> { a + Minus(b, a) }

  // ---------------------------------------------------------------- enums

  function CompareConstant(c: Ctx, tag: nat, self: Dict<nat, EnumConstant>, other: Dict<nat, EnumConstant>): (d: Ctx)
    ensures Kept(c, d) && d == c.(found := d.found)
  {
    var at := c.Push(Decimal(tag));
    var done :=
      if tag !in self.entries then at.Add(ENUM_CONSTANT_ADD)
      else if tag !in other.entries then at.Add(ENUM_CONSTANT_DROP)
      else if self.entries[tag].name != other.entries[tag].name then at.Add(ENUM_CONSTANT_ALTER)
      else at;
    done.Pop()
  }

  function CompareConstants(c: Ctx, keys: seq<nat>, self: Dict<nat, EnumConstant>,
                            other: Dict<nat, EnumConstant>): (d: Ctx)
    ensures Kept(c, d) && d == c.(found := d.found)
  {
    if keys == [] then c
      else CompareConstant(CompareConstants(c, keys[..|keys| - 1], self, other), keys[|keys| - 1], self, other)
  }

  /** `EnumElement.compare` */
  function CompareEnum(c: Ctx, self: TypeElement, other: TypeElement): (d: Ctx)
    requires self.EnumElement?
    ensures Kept(c, d) && d == c.(found := d.found)
  {
    if !other.EnumElement? then c.Add(TYPE_ALTER)
    else
      var a, b := ConstantsByTag(self.constants), ConstantsByTag(other.constants);
      CompareConstants(c, Chain(a.keys, b.keys), a, b)
  }

  // ---------------------------------------------------------------- fields

  /** `compatibility_kind` of a scalar type or of a name that stands for an enum. */
  function KindOf(t: ProtoType, isEnum: bool): CompatibilityKind {
    if isEnum || !t.Scalar? then VARIANT else t.scalar.Kind()
  }

  function CompareScalar(c: Ctx, fieldLabel: Option<Label>, otherLabel: Option<Label>, kind: CompatibilityKind,
                         otherKind: CompatibilityKind): (d: Ctx)
    ensures Kept(c, d)
  {
    var labelled := if fieldLabel != otherLabel && kind != LENGTH_DELIMITED then c.Add(FIELD_LABEL_ALTER) else c;
    if kind != otherKind then labelled.Add(FIELD_KIND_ALTER) else labelled
  }

  predicate NamesEnum(name: Option<string>, types: map<string, TypeRecord>)
    requires name.Some? ==> name.value in types
  {
    name.Some? && types[name.value].element.EnumElement?
  }

  /** `FieldElement.compare_type` with `compare_map`. */
  ghost function CompareType(c: Ctx, fieldLabel: Option<Label>, t: ProtoType, u: ProtoType,
                             otherLabel: Option<Label>): (d: Ctx)
    requires Closed(c)
    ensures Kept(c, d)
    decreases c.Free(), 1, t
  {
    var selfEnum, otherEnum := NamesEnum(SelfName(c, t), c.selfTypes), NamesEnum(OtherName(c, u), c.otherTypes);
    var selfScalar, otherScalar := t.Scalar? || selfEnum, u.Scalar? || otherEnum;
    if selfScalar == otherScalar && t.MapOf? == u.MapOf? then
      if t.MapOf? then
        var keyed := CompareType(c, fieldLabel, t.key, u.key, None);
        CompareType(keyed, fieldLabel, t.value, u.value, None)
      else if selfScalar then CompareScalar(c, fieldLabel, otherLabel, KindOf(t, selfEnum), KindOf(u, otherEnum))
      else CompareNamed(c, t, u)
    else c.Add(FIELD_KIND_ALTER)
  }

  /** `FieldElement.compare_message` */
  ghost function CompareNamed(c: Ctx, t: ProtoType, u: ProtoType): (d: Ctx)
    requires Closed(c)
    ensures Kept(c, d)
    decreases c.Free(), 0, 2
  {
    var a, b := SelfName(c, t), OtherName(c, u);
    if a.None? || b.None? then if t.Name() != u.Name() then c.Add(FIELD_TYPE_ALTER) else c
    else if ShortName(a.value, c.selfTypes[a.value]) != ShortName(b.value, c.otherTypes[b.value])
      then c.Add(FIELD_NAME_ALTER)
    else CompareElement(c, c.selfTypes[a.value].element, c.otherTypes[b.value].element)
  }

  /** `FieldElement.compare` */
  ghost function CompareField(c: Ctx, f: FieldElement, g: FieldElement): (d: Ctx)
    requires Closed(c)
    ensures Kept(c, d)
    decreases c.Free(), 2, 0
  {
    var named := if f.name != g.name then c.Add(FIELD_NAME_ALTER) else c;
    CompareType(named, f.fieldLabel, f.elementType, g.elementType, g.fieldLabel)
  }

  // ---------------------------------------------------------------- one-ofs

  ghost function CompareOneOfField(c: Ctx, tag: nat, self: Dict<nat, FieldElement>,
                                   other: Dict<nat, FieldElement>): (d: Ctx)
    requires Closed(c)
    ensures Kept(c, d)
    decreases c.Free(), 3
  {
    var at := c.Push(Decimal(tag));
    var done :=
      if tag !in self.entries then at.Add(ONE_OF_FIELD_ADD)
      else if tag !in other.entries then at.Add(ONE_OF_FIELD_DROP)
      else CompareField(at, self.entries[tag], other.entries[tag]);
    done.Pop()
  }

  ghost function CompareOneOfFields(c: Ctx, keys: seq<nat>, self: Dict<nat, FieldElement>,
                                    other: Dict<nat, FieldElement>): (d: Ctx)
    requires Closed(c)
    ensures Kept(c, d)
    decreases c.Free(), 4, |keys|
  {
    if keys == [] then c
    else CompareOneOfField(CompareOneOfFields(c, keys[..|keys| - 1], self, other), keys[|keys| - 1], self, other)
  }

  /** `OneOfElement.compare` */
  ghost function CompareOneOf(c: Ctx, self: OneOfElement, other: OneOfElement): (d: Ctx)
    requires Closed(c)
    ensures Kept(c, d)
    decreases c.Free(), 5
  {
    var a, b := ByTag(self.fields), ByTag(other.fields);
    CompareOneOfFields(c, Chain(a.keys, b.keys), a, b)
  }

  // ---------------------------------------------------------------- messages

  /** The fields of a one-of taken out of the plain fields, and how many there were. */
  function TakeOut(tags: Dict<nat, FieldElement>, fields: seq<FieldElement>): (Dict<nat, FieldElement>, nat) {
    if fields == [] then (tags, 0)
    else
      var (rest, n) := TakeOut(tags, fields[..|fields| - 1]);
      var tag := fields[|fields| - 1].tag;
      if tag in rest.entries then (rest.Pop(tag), n + 1) else (rest, n)
  }

  /** The plain fields left after every one-of of the other side has taken out its own. */
  function TakeOutAll(tags: Dict<nat, FieldElement>, ones: seq<OneOfElement>): Dict<nat, FieldElement> {
    if ones == [] then tags else TakeOut(TakeOutAll(tags, ones[..|ones| - 1]), ones[|ones| - 1].fields).0
  }

  function CompareConverted(c: Ctx, tags: Dict<nat, FieldElement>, ones: seq<OneOfElement>): (d: Ctx)
    ensures Kept(c, d) && d == c.(found := d.found)
  {
    if ones == [] then c
    else
      var init, one := ones[..|ones| - 1], ones[|ones| - 1];
      var at := CompareConverted(c, tags, init).Push(one.name);
      var done := if TakeOut(TakeOutAll(tags, init), one.fields).1 > 1 then at.Add(FEW_FIELDS_CONVERTED_TO_ONE_OF)
        else at;
      done.Pop()
  }

  /** The field keeps its name and changes its tag. */
  predicate TagAltered(tag: nat, tags: Dict<nat, FieldElement>, selfNames: map<string, FieldElement>,
                       otherNames: map<string, FieldElement>) {
    && tag in tags.entries && tags.entries[tag].name != ""
    && var name := tags.entries[tag].name;
       name in selfNames && name in otherNames && selfNames[name].tag != otherNames[name].tag
  }

  function CompareAltered(
    c: Ctx, tag: nat, tags: Dict<nat, FieldElement>, selfNames: map<string, FieldElement>,
      otherNames: map<string, FieldElement>): (d: Ctx)
    ensures Kept(c, d) && d == c.(found := d.found)
  {
    if TagAltered(tag, tags, selfNames, otherNames) then c.Push(tags.entries[tag].name).Add(FIELD_TAG_ALTER).Pop()
      else c
  }

  ghost function CompareCommon(c: Ctx, tag: nat, tags: Dict<nat, FieldElement>,
                               otherTags: Dict<nat, FieldElement>): (d: Ctx)
    requires Closed(c)
    ensures Kept(c, d)
    decreases c.Free(), 2, 1
  {
    var at := c.Push(Decimal(tag));
    var done :=
      if tag !in tags.entries then at.Add(FIELD_ADD)
      else if tag !in otherTags.entries then at.Add(FIELD_DROP)
      else CompareField(at, tags.entries[tag], otherTags.entries[tag]);
    done.Pop()
  }

  ghost function ComparePlain(
    c: Ctx, tag: nat, tags: Dict<nat, FieldElement>, otherTags: Dict<nat, FieldElement>,
    selfNames: map<string, FieldElement>, otherNames: map<string, FieldElement>): (d: Ctx)
    requires Closed(c)
    ensures Kept(c, d)
    decreases c.Free(), 3
  {
    CompareCommon(CompareAltered(c, tag, tags, selfNames, otherNames), tag, tags, otherTags)
  }

  ghost function CompareFields(
    c: Ctx, keys: seq<nat>, tags: Dict<nat, FieldElement>, otherTags: Dict<nat, FieldElement>,
    selfNames: map<string, FieldElement>, otherNames: map<string, FieldElement>): (d: Ctx)
    requires Closed(c)
    ensures Kept(c, d)
    decreases c.Free(), 4, |keys|
  {
    if keys == [] then c
    else
      var before := CompareFields(c, keys[..|keys| - 1], tags, otherTags, selfNames, otherNames);
      ComparePlain(before, keys[|keys| - 1], tags, otherTags, selfNames, otherNames)
  }

  ghost function CompareOneOfAt(c: Ctx, name: string, self: Dict<string, OneOfElement>,
                                other: Dict<string, OneOfElement>): (d: Ctx)
    requires Closed(c)
    ensures Kept(c, d)
    decreases c.Free(), 6
  {
    var at := c.Push(name);
    var done :=
      if name !in self.entries then at.Add(ONE_OF_ADD)
      else if name !in other.entries then at.Add(ONE_OF_DROP)
      else CompareOneOf(at, self.entries[name], other.entries[name]);
    done.Pop()
  }

  ghost function CompareOneOfs(c: Ctx, keys: seq<string>, self: Dict<string, OneOfElement>,
                               other: Dict<string, OneOfElement>): (d: Ctx)
    requires Closed(c)
    ensures Kept(c, d)
    decreases c.Free(), 7, |keys|
  {
    if keys == [] then c
    else CompareOneOfAt(CompareOneOfs(c, keys[..|keys| - 1], self, other), keys[|keys| - 1], self, other)
  }

  ghost function ComparedFields(c: Ctx, self: TypeElement, other: TypeElement): (d: Ctx)
    requires Closed(c) && self.MessageElement? && other.MessageElement?
    ensures Kept(c, d)
    decreases c.Free(), 5
  {
    var tags := TakeOutAll(ByTag(self.fields), other.oneOfs);
    var otherTags := ByTag(other.fields);
    var converted := CompareConverted(c, ByTag(self.fields), other.oneOfs);
    CompareFields(converted, Chain(tags.keys, otherTags.keys), tags, otherTags, ByFieldName(self.fields),
      ByFieldName(other.fields))
  }

  ghost function ComparedOneOfs(c: Ctx, self: TypeElement, other: TypeElement): (d: Ctx)
    requires Closed(c) && self.MessageElement? && other.MessageElement?
    ensures Kept(c, d)
    decreases c.Free(), 8
  {
    var a, b := OneOfsByName(self.oneOfs), OneOfsByName(other.oneOfs);
    CompareOneOfs(ComparedFields(c, self, other), Chain(a.keys, b.keys), a, b)
  }

  /** The part of `MessageElement.compare` that runs under the lock: fields, one-ofs, nested types. */
  ghost function CompareBody(c: Ctx, self: TypeElement, other: TypeElement): (d: Ctx)
    requires Closed(c) && self.MessageElement? && other.MessageElement? && AllKnown(c.idents, self.nested)
    ensures Kept(c, d)
    decreases c.Free(), 11
  {
    CompareTypeLists(ComparedOneOfs(c, self, other), self.nested, other.nested)
  }

  lemma LockShrinks(c: Ctx, ident: int)
    requires ident in c.idents && ident !in c.locked
    ensures c.(locked := c.locked + [ident]).Free() < c.Free()
  {
    assert ident in c.Free() && ident !in c.(locked := c.locked + [ident]).Free();
  }

  lemma {:induction false} WithoutLast(s: seq<int>, x: int)
    requires x !in s
    ensures Without(s + [x], x) == s
  {
    if s != [] {
      WithoutLast(s[1..], x);
      assert (s + [x])[1..] == s[1..] + [x];
    }
  }

  /** `MessageElement.compare`, between `lock_message` and `unlock_message`. */
  ghost function CompareMessage(c: Ctx, self: TypeElement, other: TypeElement): (d: Ctx)
    requires Closed(c) && self.MessageElement? && Known(c.idents, self)
    ensures Kept(c, d)
    decreases c.Free(), 0, 0
  {
    if !other.MessageElement? then c.Add(TYPE_ALTER)
    else if self.ident in c.locked then c
    else
      LockShrinks(c, self.ident);
      WithoutLast(c.locked, self.ident);
      var done := CompareBody(c.(locked := c.locked + [self.ident]), self, other);
      done.(locked := Without(done.locked, self.ident))
  }

  ghost function CompareElement(c: Ctx, self: TypeElement, other: TypeElement): (d: Ctx)
    requires Closed(c) && Known(c.idents, self)
    ensures Kept(c, d)
    decreases c.Free(), 0, 1
  {
    if self.MessageElement? then CompareMessage(c, self, other) else CompareEnum(c, self, other)
  }

  // ---------------------------------------------------------------- lists of types

  ghost predicate EntriesKnown(c: Ctx, self: Dict<string, TypeElement>) {
    forall n :: n in self.entries ==> Known(c.idents, self.entries[n])
  }

  ghost function CompareName(c: Ctx, name: string, self: Dict<string, TypeElement>,
                             other: Dict<string, TypeElement>): (d: Ctx)
    requires Closed(c) && EntriesKnown(c, self)
    ensures Kept(c, d)
    decreases c.Free(), 8
  {
    var at := c.PushType(name);
    var done :=
      if name !in self.entries then
        if name !in other.entries then at
        else at.Add(if other.entries[name].MessageElement? then MESSAGE_ADD else ENUM_ADD)
      else if name !in other.entries then at.Add(if self.entries[name].MessageElement? then MESSAGE_DROP else ENUM_DROP)
      else if self.entries[name].MessageElement? != other.entries[name].MessageElement? then at.Add(TYPE_ALTER)
      else CompareElement(at, self.entries[name], other.entries[name]);
    done.PopType()
  }

  ghost function CompareNames(c: Ctx, keys: seq<string>, self: Dict<string, TypeElement>,
                              other: Dict<string, TypeElement>): (d: Ctx)
    requires Closed(c) && EntriesKnown(c, self)
    ensures Kept(c, d)
    decreases c.Free(), 9, |keys|
  {
    if keys == [] then c
    else CompareName(CompareNames(c, keys[..|keys| - 1], self, other), keys[|keys| - 1], self, other)
  }

  /** The tables after both lists have been entered. */
  function Entered(c: Ctx, selfs: seq<TypeElement>, others: seq<TypeElement>): Ctx {
    c.(selfTypes := AddTypes(c.selfPackage, Some(c.selfPackage), selfs, c.selfTypes),
       otherTypes := AddTypes(c.otherPackage, Some(c.otherPackage), others, c.otherTypes))
  }

  lemma {:induction false} TypesByNameKnown(idents: set<int>, es: seq<TypeElement>)
    requires AllKnown(idents, es)
    ensures forall n :: n in TypesByName(es).entries ==> Known(idents, TypesByName(es).entries[n])
  {
    if es != [] { TypesByNameKnown(idents, es[..|es| - 1]); }
  }

  /** `compare_type_lists` */
  ghost function CompareTypeLists(c: Ctx, selfs: seq<TypeElement>, others: seq<TypeElement>): (d: Ctx)
    requires Closed(c) && AllKnown(c.idents, selfs)
    ensures Kept(c, d)
    decreases c.Free(), 10
  {
    AddTypesKnown(c.idents, c.selfPackage, Some(c.selfPackage), selfs, c.selfTypes);
    TypesByNameKnown(c.idents, selfs);
    var entered := Entered(c, selfs, others);
    var a, b := TypesByName(selfs), TypesByName(others);
    CompareNames(entered, Chain(a.keys, b.keys), a, b)
  }

  // ---------------------------------------------------------------- files

  /** `_collect_dependencies_types`, which stops at the first file without references of its own. */
  function Collected(files: seq<ProtoFile>, types: map<string, TypeRecord>): map<string, TypeRecord>
    decreases files
  {
    if files == [] then types
    else
      var entered := AddTypes(files[0].Package(), files[0].packageName, files[0].types, types);
      if !files[0].referring then entered
      else Collected(files[1..], Collected(files[0].dependencies, entered))
  }

  function Dependencies(f: ProtoFile): map<string, TypeRecord> {
    if f.referring then Collected(f.dependencies, map[]) else map[]
  }

  ghost function Idents(e: TypeElement): set<int> {
    if e.MessageElement? then {e.ident} + AllIdents(e.nested) else {}
  }

  ghost function AllIdents(es: seq<TypeElement>): set<int> {
    if es == [] then {} else Idents(es[0]) + AllIdents(es[1..])
  }

  ghost function TableIdents(types: map<string, TypeRecord>): (idents: set<int>)
    ensures forall n, i :: n in types && i in Idents(types[n].element) ==> i in idents
  {
    set n, i | n in types && i in Idents(types[n].element) :: i
  }

  lemma {:induction false} KnownAmong(idents: set<int>, e: TypeElement)
    requires Idents(e) <= idents
    ensures Known(idents, e)
    decreases e, 1
  {
    if e.MessageElement? { AllKnownAmong(idents, e.nested); }
  }

  lemma {:induction false} AllKnownAmong(idents: set<int>, es: seq<TypeElement>)
    requires AllIdents(es) <= idents
    ensures AllKnown(idents, es)
    decreases es, 0
  {
    if es != [] {
      KnownAmong(idents, es[0]);
      AllKnownAmong(idents, es[1..]);
      assert forall i :: 1 <= i < |es| ==> es[i] == es[1..][i - 1];
    }
  }

  /** The state in which `ProtoFileElement.compare` calls `compare_type_lists`. */
  ghost function Start(f: ProtoFile, g: ProtoFile): (c: Ctx)
    ensures Closed(c) && AllKnown(c.idents, f.types)
  {
    var idents := AllIdents(f.types) + TableIdents(Dependencies(f));
    var c := Ctx(f.Package(), g.Package(), Dependencies(f), Dependencies(g), [], [], [], [], idents);
    var packaged := if f.packageName != g.packageName then c.Add(PACKAGE_ALTER) else c;
    var started := if f.syntax != g.syntax then packaged.Add(SYNTAX_ALTER) else packaged;
    AllKnownAmong(idents, f.types);
    DependenciesKnown(f, idents);
    started
  }

  lemma DependenciesKnown(f: ProtoFile, idents: set<int>)
    requires TableIdents(Dependencies(f)) <= idents
    ensures TableKnown(idents, Dependencies(f))
  {
    forall n | n in Dependencies(f) ensures Known(idents, Dependencies(f)[n].element) {
      KnownAmong(idents, Dependencies(f)[n].element);
    }
  }

  /** `ProtoFileElement.compare`: the modifications that lead from the first file to the second. */
  ghost function CompareFiles(f: ProtoFile, g: ProtoFile): seq<ModificationRecord> {
    CompareTypeLists(Start(f, g), f.types, g.types).found
  }
}
