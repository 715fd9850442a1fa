/** What the verdict of a comparison means: a change that breaks readers and shows in the definitions themselves, at any
    depth of nesting, is never called compatible, and between schemas whose fields are scalars and maps of scalars
    nothing else is called incompatible. Where a field has a named type, `NamedTypeVerdict` says what is decided by
    what the name stands for. */
module ProtobufVerdict {
  import opened Dicts
  import opened SchemaModels
  import opened Text
  import opened ProtobufModel
  import opened ProtobufCompare
  import opened ProtobufTables
  import opened ProtobufReflexive

  // ---------------------------------------------------------------- what breaks readers

  predicate KindBroken(fieldLabel: Option<Label>, k: CompatibilityKind, l: CompatibilityKind,
                       otherLabel: Option<Label>) {
    k != l || (fieldLabel != otherLabel && k != LENGTH_DELIMITED)
  }

  /** A map became something else or the reverse, or a scalar changed its wire kind or, unless it is
      length-delimited, its label. The parts of a map count as unlabelled on the other side. Against a scalar a name
      is at best an enum, so it counts as a varint. */
  predicate TypeBroken(fieldLabel: Option<Label>, t: ProtoType, u: ProtoType, otherLabel: Option<Label>) {
    || t.MapOf? != u.MapOf?
    || (t.MapOf? && u.MapOf? &&
       (TypeBroken(fieldLabel, t.key, u.key, None) || TypeBroken(fieldLabel, t.value, u.value, None)))
    || ((t.Scalar? || u.Scalar?) && KindBroken(fieldLabel, KindOf(t, false), KindOf(u, false), otherLabel))
  }

  predicate FieldBroken(f: FieldElement, g: FieldElement) {
    TypeBroken(f.fieldLabel, f.elementType, g.elementType, g.fieldLabel)
  }

  /** A field of the one-of is gone or broken. */
  ghost predicate OneOfBroken(self: OneOfElement, other: OneOfElement) {
    var a, b := ByTag(self.fields).entries, ByTag(other.fields).entries;
    exists t :: t in a && (t !in b || FieldBroken(a[t], b[t]))
  }

  /** The number of a plain field that the `i`-th one-of of the other side takes over. */
  ghost predicate TakenOver(self: TypeElement, other: TypeElement, i: nat, t: nat)
    requires self.MessageElement? && other.MessageElement? && i < |other.oneOfs|
  {
    HasTag(self.fields, t) && HasTag(other.oneOfs[i].fields, t) && !InOneOf(other.oneOfs[..i], t)
  }

  /** Two plain fields became members of the same one-of. */
  ghost predicate FewConverted(self: TypeElement, other: TypeElement)
    requires self.MessageElement? && other.MessageElement?
  {
    exists i, s, t :: 0 <= i < |other.oneOfs| && s != t && TakenOver(self, other, i, s) && TakenOver(self, other, i, t)
  }

  /** A plain field that did not move into a one-of changed its number or is broken. */
  ghost predicate PlainBroken(self: TypeElement, other: TypeElement, t: nat)
    requires self.MessageElement? && other.MessageElement?
  {
    var a, b := ByTag(self.fields).entries, ByTag(other.fields).entries;
    && t in a && !InOneOf(other.oneOfs, t)
    && (TagAltered(t, ByTag(self.fields), ByFieldName(self.fields), ByFieldName(other.fields)) ||
       (t in b && FieldBroken(a[t], b[t])))
  }

  ghost predicate MessageBroken(self: TypeElement, other: TypeElement)
    requires self.MessageElement? && other.MessageElement?
    decreases self, 1
  {
    || FewConverted(self, other)
    || (exists t :: PlainBroken(self, other, t))
    || (exists n :: SharedOneOfBroken(self, other, n))
    || Broken(self.nested, other.nested)
  }

  ghost predicate SharedOneOfBroken(self: TypeElement, other: TypeElement, n: string)
    requires self.MessageElement? && other.MessageElement?
  {
    var a, b := OneOfsByName(self.oneOfs).entries, OneOfsByName(other.oneOfs).entries;
    n in a && n in b && OneOfBroken(a[n], b[n])
  }

  /** A message is gone, or one that both sides have is broken. */
  ghost predicate Broken(selfs: seq<TypeElement>, others: seq<TypeElement>)
    decreases selfs, 2
  {
    exists k, n :: 0 <= k < |selfs| && NameBroken(selfs, others, k, n)
  }

  ghost predicate NameBroken(selfs: seq<TypeElement>, others: seq<TypeElement>, k: nat, n: string)
    requires k < |selfs|
    decreases selfs, 0
  {
    var a, b := TypesByName(selfs).entries, TypesByName(others).entries;
    && n in a && a[n] == selfs[k] && selfs[k].MessageElement?
    && (n !in b || (b[n].MessageElement? && MessageBroken(selfs[k], b[n])))
  }

  // ---------------------------------------------------------------- names

  ghost predicate ScalarWord(n: string) { exists s: ScalarType :: s.Name() == n }

  /** The part after the last dot. */
  function LastPart(n: string): string {
    if n == [] || n[|n| - 1] == '.' then [] else LastPart(n[..|n| - 1]) + [n[|n| - 1]]
  }

  /** An identifier that is not the name of a scalar type. */
  ghost predicate ProperName(n: string) { '<' !in n && '.' !in n && !ScalarWord(n) }

  ghost predicate Proper(e: TypeElement) {
    ProperName(e.name) && (e.MessageElement? ==> forall i :: 0 <= i < |e.nested| ==> Proper(e.nested[i]))
  }

  ghost predicate AllProper(es: seq<TypeElement>) { forall i :: 0 <= i < |es| ==> Proper(es[i]) }

  ghost predicate KeyOk(n: string) { '<' !in n && !ScalarWord(LastPart(n)) }

  ghost predicate TableProper(types: map<string, TypeRecord>) {
    forall n :: n in types ==> KeyOk(n) && Proper(types[n].element)
  }

  ghost predicate Fit(c: Ctx) {
    Closed(c) && TableProper(c.selfTypes) && TableProper(c.otherTypes) && '<' !in c.selfPackage &&
      '<' !in c.otherPackage
  }

  lemma {:induction false} LastOfIdentifier(n: string)
    requires '.' !in n
    ensures LastPart(n) == n
  {
    if n != [] { LastOfIdentifier(n[..|n| - 1]); }
  }

  lemma {:induction false} LastOfDotted(p: string, n: string)
    requires '.' !in n
    ensures LastPart(p + "." + n) == n
    decreases |n|
  {
    var whole := p + "." + n;
    if n == [] {
      assert whole[|whole| - 1] == '.';
    } else {
      assert whole[..|whole| - 1] == p + "." + n[..|n| - 1];
      assert whole[|whole| - 1] == n[|n| - 1];
      LastOfDotted(p, n[..|n| - 1]);
    }
  }

  lemma {:induction false} AddTypeProper(prefix: string, package: Option<string>, e: TypeElement,
                                         types: map<string, TypeRecord>)
    requires Proper(e) && TableProper(types) && '<' !in prefix
    ensures TableProper(AddType(prefix, package, e, types))
    decreases e, 1
  {
    var name := if prefix != "" then prefix + "." + e.name else e.name;
    LastOfIdentifier(e.name);
    LastOfDotted(prefix, e.name);
    if e.MessageElement? { AddTypesProper(name, package, e.nested, types[name := TypeRecord(package, e)]); }
  }

  lemma {:induction false} AddTypesProper(prefix: string, package: Option<string>, es: seq<TypeElement>,
                                          types: map<string, TypeRecord>)
    requires AllProper(es) && TableProper(types) && '<' !in prefix
    ensures TableProper(AddTypes(prefix, package, es, types))
    decreases es, 0
  {
    if es != [] {
      AddTypeProper(prefix, package, es[0], types);
      AddTypesProper(prefix, package, es[1..], AddType(prefix, package, es[0], types));
    }
  }

  lemma ScalarIdentifier(s: ScalarType)
    ensures s.Name() != "" && '.' !in s.Name()
  {
    match s case _ => {}
  }

  /** No declared type is found under the name of a scalar or of a map type. */
  lemma {:induction false} NotInScope(scope: seq<string>, name: string, types: map<string, TypeRecord>)
    requires TableProper(types) && ('<' in name || (ScalarWord(name) && '.' !in name))
    ensures InScope(scope, name, types).None?
  {
    LastOfIdentifier(if '<' in name then "" else name);
    assert name !in types;
    if scope != [] {
      LastOfDotted(Dotted(scope), if '<' in name then "" else name);
      assert Dotted(scope) + "." + name !in types;
      NotInScope(scope[..|scope| - 1], name, types);
    }
  }

  lemma NotNamed(c: Ctx, t: ProtoType)
    requires Fit(c) && !t.Named?
    ensures SelfName(c, t).None? && OtherName(c, t).None?
  {
    if t.Scalar? { ScalarIdentifier(t.scalar); } else { assert t.Name()[3] == '<'; }
    NotInScope((if c.selfPackage != "" then [c.selfPackage] else []) + c.path, t.Name(), c.selfTypes);
    NotInScope((if c.otherPackage != "" then [c.otherPackage] else []) + c.path, t.Name(), c.otherTypes);
  }

  // ---------------------------------------------------------------- fields

  predicate Simple(t: ProtoType) { t.Scalar? || (t.MapOf? && Simple(t.key) && Simple(t.value)) }

  ghost predicate SimpleFields(fields: seq<FieldElement>) {
    forall i :: 0 <= i < |fields| ==> Simple(fields[i].elementType)
  }

  /** `broken` is never called compatible; where everything is simple nothing else is called incompatible. */
  ghost predicate Judged(c: Ctx, d: Ctx, broken: bool, simple: bool) {
    && Kept(c, d) && Fit(d)
    && (AllCompatible(d.found) ==> !broken)
    && (simple && AllCompatible(c.found) && !broken ==> AllCompatible(d.found))
  }

  lemma PrefixCompatible(c: Ctx, d: Ctx)
    requires c.found <= d.found && AllCompatible(d.found)
    ensures AllCompatible(c.found)
  {
    assert forall i :: 0 <= i < |c.found| ==> c.found[i] == d.found[i];
  }

  lemma AddJudged(c: Ctx, m: Modification)
    ensures AllCompatible(c.Add(m).found) <==> AllCompatible(c.found) && m.IsCompatible()
  {
    var d := c.Add(m);
    if AllCompatible(d.found) {
      PrefixCompatible(c, d);
      assert d.found[|c.found|].modification == m;
    }
  }

  lemma Compose(c: Ctx, b: Ctx, d: Ctx, first: bool, second: bool, simple: bool)
    requires Judged(c, b, first, simple) && Judged(b, d, second, simple)
    ensures Judged(c, d, first || second, simple)
  {
    if AllCompatible(d.found) { PrefixCompatible(b, d); }
  }

  lemma ScalarJudged(c: Ctx, fieldLabel: Option<Label>, otherLabel: Option<Label>, k: CompatibilityKind,
                     l: CompatibilityKind)
    ensures AllCompatible(CompareScalar(c, fieldLabel, otherLabel, k, l).found) <==>
            AllCompatible(c.found) && !KindBroken(fieldLabel, k, l, otherLabel)
  {
    AddJudged(c, FIELD_LABEL_ALTER);
    AddJudged(c, FIELD_KIND_ALTER);
    AddJudged(c.Add(FIELD_LABEL_ALTER), FIELD_KIND_ALTER);
  }

  lemma ScalarsJudged(c: Ctx, fieldLabel: Option<Label>, t: ProtoType, u: ProtoType, otherLabel: Option<Label>)
    requires Fit(c) && t.Scalar? && u.Scalar?
    ensures Judged(c, CompareType(c, fieldLabel, t, u, otherLabel), TypeBroken(fieldLabel, t, u, otherLabel),
            Simple(t) && Simple(u))
  {
    NotNamed(c, t);
    NotNamed(c, u);
    ScalarJudged(c, fieldLabel, otherLabel, t.scalar.Kind(), u.scalar.Kind());
  }

  lemma MapMadeOtherJudged(c: Ctx, fieldLabel: Option<Label>, t: ProtoType, u: ProtoType, otherLabel: Option<Label>)
    requires Fit(c) && t.MapOf? != u.MapOf?
    ensures Judged(c, CompareType(c, fieldLabel, t, u, otherLabel), TypeBroken(fieldLabel, t, u, otherLabel),
            Simple(t) && Simple(u))
  {
    AddJudged(c, FIELD_KIND_ALTER);
  }

  /** A name on one side: what it stands for decides, and only the type tables can change. */
  lemma NamedJudged(c: Ctx, fieldLabel: Option<Label>, t: ProtoType, u: ProtoType, otherLabel: Option<Label>)
    requires Fit(c) && !t.MapOf? && !u.MapOf? && (t.Named? || u.Named?)
    ensures Judged(c, CompareType(c, fieldLabel, t, u, otherLabel), TypeBroken(fieldLabel, t, u, otherLabel),
            Simple(t) && Simple(u))
    decreases c.Free(), 0, 3
  {
    if t.Named? && u.Named? && !NamesEnum(SelfName(c, t), c.selfTypes) {
      NamedFits(c, t, u);
    } else {
      if t.Scalar? { NotNamed(c, t); }
      if u.Scalar? { NotNamed(c, u); }
      AddJudged(c, FIELD_KIND_ALTER);
      ScalarJudged(c, fieldLabel, otherLabel, KindOf(t, t.Named?), KindOf(u, u.Named?));
    }
  }

  /** The change of a field with a named type on some side is called compatible if and only if: a name against a scalar
      stands for an enum, and kind and label are kept; of two names both or neither stand for an enum, and then the
      label is kept if they do; and if they do not and one of them is not declared, they are the same name. Two
      declared messages are compared with each other if they have the same name in their packages; one with another
      name is a compatible change, whatever it holds. */
  lemma NamedTypeVerdict(c: Ctx, fieldLabel: Option<Label>, t: ProtoType, u: ProtoType, otherLabel: Option<Label>)
    requires Fit(c) && !t.MapOf? && !u.MapOf? && (t.Named? || u.Named?) && AllCompatible(c.found)
    ensures var a, b := SelfName(c, t), OtherName(c, u);
            var enum, enum' := NamesEnum(a, c.selfTypes), NamesEnum(b, c.otherTypes);
            var d := CompareType(c, fieldLabel, t, u, otherLabel);
            && (t.Scalar? || u.Scalar? ==>
                  (AllCompatible(d.found) <==>
                     (enum || enum') && !KindBroken(fieldLabel, KindOf(t, enum), KindOf(u, enum'), otherLabel)))
            && (t.Named? && u.Named? && enum != enum' ==> !AllCompatible(d.found))
            && (t.Named? && u.Named? && enum && enum' ==> (AllCompatible(d.found) <==> fieldLabel == otherLabel))
            && (t.Named? && u.Named? && !enum && !enum' && (a.None? || b.None?) ==>
                  (AllCompatible(d.found) <==> t.Name() == u.Name()))
            && (t.Named? && u.Named? && !enum && !enum' && a.Some? && b.Some? ==>
                  if ShortName(a.value, c.selfTypes[a.value]) != ShortName(b.value, c.otherTypes[b.value])
                  then AllCompatible(d.found)
                  else d == CompareElement(c, c.selfTypes[a.value].element, c.otherTypes[b.value].element))
  {
    if t.Scalar? { NotNamed(c, t); }
    if u.Scalar? { NotNamed(c, u); }
    var enum, enum' := NamesEnum(SelfName(c, t), c.selfTypes), NamesEnum(OtherName(c, u), c.otherTypes);
    ScalarJudged(c, fieldLabel, otherLabel, KindOf(t, enum), KindOf(u, enum'));
    AddJudged(c, FIELD_KIND_ALTER);
    AddJudged(c, FIELD_TYPE_ALTER);
    AddJudged(c, FIELD_NAME_ALTER);
  }

  lemma {:induction false} TypeJudged(c: Ctx, fieldLabel: Option<Label>, t: ProtoType, u: ProtoType,
                                      otherLabel: Option<Label>)
    requires Fit(c)
    ensures Judged(c, CompareType(c, fieldLabel, t, u, otherLabel), TypeBroken(fieldLabel, t, u, otherLabel),
            Simple(t) && Simple(u))
    decreases c.Free(), 1, t
  {
    if t.MapOf? && u.MapOf? {
      NotNamed(c, t);
      NotNamed(c, u);
      var keyed := CompareType(c, fieldLabel, t.key, u.key, None);
      TypeJudged(c, fieldLabel, t.key, u.key, None);
      TypeJudged(keyed, fieldLabel, t.value, u.value, None);
      var d := CompareType(keyed, fieldLabel, t.value, u.value, None);
      if AllCompatible(d.found) { PrefixCompatible(keyed, d); }
    } else if t.MapOf? != u.MapOf? {
      MapMadeOtherJudged(c, fieldLabel, t, u, otherLabel);
    } else if t.Scalar? && u.Scalar? {
      ScalarsJudged(c, fieldLabel, t, u, otherLabel);
    } else {
      NamedJudged(c, fieldLabel, t, u, otherLabel);
    }
  }

  lemma {:induction false} NamedFits(c: Ctx, t: ProtoType, u: ProtoType)
    requires Fit(c) && !NamesEnum(SelfName(c, t), c.selfTypes)
    ensures Fit(CompareNamed(c, t, u))
    decreases c.Free(), 0, 2
  {
    var a, b := SelfName(c, t), OtherName(c, u);
    if a.Some? && b.Some? { MessageJudged(c, c.selfTypes[a.value].element, c.otherTypes[b.value].element); }
  }

  lemma FieldJudged(c: Ctx, f: FieldElement, g: FieldElement)
    requires Fit(c)
    ensures Judged(c, CompareField(c, f, g), FieldBroken(f, g), Simple(f.elementType) && Simple(g.elementType))
    decreases c.Free(), 2, 0
  {
    AddJudged(c, FIELD_NAME_ALTER);
    TypeJudged(if f.name != g.name then c.Add(FIELD_NAME_ALTER) else c, f.fieldLabel, f.elementType, g.elementType,
      g.fieldLabel);
  }

  // ---------------------------------------------------------------- one-ofs

  ghost predicate SimpleDict(d: Dict<nat, FieldElement>) {
    forall t :: t in d.entries ==> Simple(d.entries[t].elementType)
  }

  ghost predicate OneOfFieldBroken(self: Dict<nat, FieldElement>, other: Dict<nat, FieldElement>, t: nat) {
    t in self.entries && (t !in other.entries || FieldBroken(self.entries[t], other.entries[t]))
  }

  lemma OneOfFieldJudged(c: Ctx, tag: nat, self: Dict<nat, FieldElement>, other: Dict<nat, FieldElement>)
    requires Fit(c)
    ensures Judged(c, CompareOneOfField(c, tag, self, other), OneOfFieldBroken(self, other, tag),
            SimpleDict(self) && SimpleDict(other))
    decreases c.Free(), 3
  {
    var at := c.Push(Decimal(tag));
    AddJudged(at, ONE_OF_FIELD_ADD);
    AddJudged(at, ONE_OF_FIELD_DROP);
    if tag in self.entries && tag in other.entries { FieldJudged(at, self.entries[tag], other.entries[tag]); }
  }

  ghost predicate SomeFieldBroken(keys: seq<nat>, self: Dict<nat, FieldElement>, other: Dict<nat, FieldElement>) {
    exists t :: t in keys && OneOfFieldBroken(self, other, t)
  }

  lemma {:induction false} OneOfFieldsJudged(c: Ctx, keys: seq<nat>, self: Dict<nat, FieldElement>,
                                             other: Dict<nat, FieldElement>)
    requires Fit(c)
    ensures Judged(c, CompareOneOfFields(c, keys, self, other), SomeFieldBroken(keys, self, other),
            SimpleDict(self) && SimpleDict(other))
    decreases c.Free(), 4, |keys|
  {
    if keys != [] {
      var init, tag := keys[..|keys| - 1], keys[|keys| - 1];
      var before, d := CompareOneOfFields(c, init, self, other), CompareOneOfFields(c, keys, self, other);
      OneOfFieldsJudged(c, init, self, other);
      OneOfFieldJudged(before, tag, self, other);
      Compose(c, before, d, SomeFieldBroken(init, self, other), OneOfFieldBroken(self, other, tag),
        SimpleDict(self) && SimpleDict(other));
      assert keys == init + [tag];
    }
  }

  lemma OneOfJudged(c: Ctx, self: OneOfElement, other: OneOfElement)
    requires Fit(c)
    ensures Judged(c, CompareOneOf(c, self, other), OneOfBroken(self, other),
            SimpleFields(self.fields) && SimpleFields(other.fields))
    decreases c.Free(), 5
  {
    var a, b := ByTag(self.fields), ByTag(other.fields);
    ByTagFrom(self.fields);
    ByTagFrom(other.fields);
    ChainSpec(a.keys, b.keys);
    OneOfFieldsJudged(c, Chain(a.keys, b.keys), a, b);
    assert OneOfBroken(self, other) <==> SomeFieldBroken(Chain(a.keys, b.keys), a, b) by {
      if OneOfBroken(self, other) {
        var t :| t in a.entries && (t !in b.entries || FieldBroken(a.entries[t], b.entries[t]));
        assert t in Chain(a.keys, b.keys) && OneOfFieldBroken(a, b, t);
      }
    }
  }

  ghost predicate SimpleOneOfs(d: Dict<string, OneOfElement>) {
    forall n :: n in d.entries ==> SimpleFields(d.entries[n].fields)
  }

  ghost predicate BothOneOfsBroken(self: Dict<string, OneOfElement>, other: Dict<string, OneOfElement>, n: string) {
    n in self.entries && n in other.entries && OneOfBroken(self.entries[n], other.entries[n])
  }

  lemma OneOfAtJudged(c: Ctx, name: string, self: Dict<string, OneOfElement>, other: Dict<string, OneOfElement>)
    requires Fit(c)
    ensures Judged(c, CompareOneOfAt(c, name, self, other), BothOneOfsBroken(self, other, name),
            SimpleOneOfs(self) && SimpleOneOfs(other))
    decreases c.Free(), 6
  {
    var at := c.Push(name);
    if name !in self.entries {
      AddJudged(at, ONE_OF_ADD);
    } else if name !in other.entries {
      AddJudged(at, ONE_OF_DROP);
    } else {
      OneOfJudged(at, self.entries[name], other.entries[name]);
      assert CompareOneOfAt(c, name, self, other) == CompareOneOf(at, self.entries[name], other.entries[name]).Pop();
    }
  }

  ghost predicate SomeOneOfBroken(keys: seq<string>, self: Dict<string, OneOfElement>,
                                  other: Dict<string, OneOfElement>) {
    exists n :: n in keys && BothOneOfsBroken(self, other, n)
  }

  lemma SomeOneOfSnoc(keys: seq<string>, self: Dict<string, OneOfElement>, other: Dict<string, OneOfElement>)
    requires keys != []
    ensures SomeOneOfBroken(keys, self, other) <==>
            SomeOneOfBroken(keys[..|keys| - 1], self, other) || BothOneOfsBroken(self, other, keys[|keys| - 1])
  {
    assert keys == keys[..|keys| - 1] + [keys[|keys| - 1]];
  }

  lemma {:induction false} OneOfsJudged(c: Ctx, keys: seq<string>, self: Dict<string, OneOfElement>,
                                        other: Dict<string, OneOfElement>)
    requires Fit(c)
    ensures Judged(c, CompareOneOfs(c, keys, self, other), SomeOneOfBroken(keys, self, other),
            SimpleOneOfs(self) && SimpleOneOfs(other))
    decreases c.Free(), 7, |keys|
  {
    if keys != [] {
      var init, name := keys[..|keys| - 1], keys[|keys| - 1];
      var before, d := CompareOneOfs(c, init, self, other), CompareOneOfs(c, keys, self, other);
      OneOfsJudged(c, init, self, other);
      OneOfAtJudged(before, name, self, other);
      Compose(c, before, d, SomeOneOfBroken(init, self, other), BothOneOfsBroken(self, other, name),
        SimpleOneOfs(self) && SimpleOneOfs(other));
      SomeOneOfSnoc(keys, self, other);
    }
  }

  // ---------------------------------------------------------------- fields that became a one-of

  ghost function Removed(tags: Dict<nat, FieldElement>, fields: seq<FieldElement>): set<nat> {
    set t | t in tags.entries && HasTag(fields, t)
  }

  lemma {:induction false} TakeOutCount(tags: Dict<nat, FieldElement>, fields: seq<FieldElement>)
    requires tags.Ok()
    ensures TakeOut(tags, fields).1 == |Removed(tags, fields)|
  {
    if fields != [] {
      var init, last := fields[..|fields| - 1], fields[|fields| - 1];
      TakeOutCount(tags, init);
      TakeOutSpec(tags, init);
      forall t: nat ensures HasTag(fields, t) <==> HasTag(init, t) || t == last.tag { HasTagSnoc(fields, t); }
      if last.tag in TakeOut(tags, init).0.entries {
        assert Removed(tags, fields) == Removed(tags, init) + {last.tag};
      } else {
        assert Removed(tags, fields) == Removed(tags, init);
      }
    } else {
      assert Removed(tags, fields) == {};
    }
  }

  lemma SeveralTaken(tags: Dict<nat, FieldElement>, fields: seq<FieldElement>)
    requires tags.Ok()
    ensures TakeOut(tags, fields).1 > 1 <==>
            exists s, t :: s != t && s in tags.entries && t in tags.entries && HasTag(fields, s) && HasTag(fields, t)
  {
    TakeOutCount(tags, fields);
    var removed := Removed(tags, fields);
    if |removed| > 1 {
      var s :| s in removed;
      assert |removed - {s}| == |removed| - 1;
      var t :| t in removed - {s};
    }
    if s, t :| s != t && s in tags.entries && t in tags.entries && HasTag(fields, s) && HasTag(fields, t) {
      assert {s, t} <= removed;
      assert |removed - {s, t}| == |removed| - 2;
    }
  }

  ghost predicate Several(tags: Dict<nat, FieldElement>, ones: seq<OneOfElement>, i: nat)
    requires i < |ones|
  {
    TakeOut(TakeOutAll(tags, ones[..i]), ones[i].fields).1 > 1
  }

  ghost predicate AnySeveral(tags: Dict<nat, FieldElement>, ones: seq<OneOfElement>) {
    exists i :: 0 <= i < |ones| && Several(tags, ones, i)
  }

  lemma AnySeveralSnoc(tags: Dict<nat, FieldElement>, ones: seq<OneOfElement>)
    requires ones != []
    ensures var init := ones[..|ones| - 1];
            AnySeveral(tags, ones) <==>
                AnySeveral(tags, init) || TakeOut(TakeOutAll(tags, init), ones[|ones| - 1].fields).1 > 1
  {
    var init := ones[..|ones| - 1];
    forall i | 0 <= i < |init| ensures Several(tags, init, i) == Several(tags, ones, i) {
      assert init[..i] == ones[..i];
    }
    if i :| 0 <= i < |init| && Several(tags, init, i) { assert Several(tags, ones, i); }
    if TakeOut(TakeOutAll(tags, init), ones[|ones| - 1].fields).1 > 1 { assert Several(tags, ones, |init|); }
  }

  lemma {:induction false} ConvertedJudged(c: Ctx, tags: Dict<nat, FieldElement>, ones: seq<OneOfElement>)
    ensures AllCompatible(CompareConverted(c, tags, ones).found) <==> AllCompatible(c.found) && !AnySeveral(tags, ones)
  {
    if ones != [] {
      var init, one := ones[..|ones| - 1], ones[|ones| - 1];
      ConvertedJudged(c, tags, init);
      AnySeveralSnoc(tags, ones);
      AddJudged(CompareConverted(c, tags, init).Push(one.name), FEW_FIELDS_CONVERTED_TO_ONE_OF);
    }
  }

  lemma SeveralMeans(self: TypeElement, other: TypeElement, i: nat)
    requires self.MessageElement? && other.MessageElement? && i < |other.oneOfs|
    ensures Several(ByTag(self.fields), other.oneOfs, i) <==>
            exists s, t :: s != t && TakenOver(self, other, i, s) && TakenOver(self, other, i, t)
  {
    var tags, ones := ByTag(self.fields), other.oneOfs;
    ByTagFrom(self.fields);
    ByTagHas(self.fields);
    var left := TakeOutAll(tags, ones[..i]);
    TakeOutAllSpec(tags, ones[..i]);
    SeveralTaken(left, ones[i].fields);
    assert forall t: nat :: TakenOver(self, other, i, t) <==> t in left.entries && HasTag(ones[i].fields, t);
  }

  lemma FewConvertedMeans(self: TypeElement, other: TypeElement)
    requires self.MessageElement? && other.MessageElement?
    ensures FewConverted(self, other) <==> AnySeveral(ByTag(self.fields), other.oneOfs)
  {
    if i :| 0 <= i < |other.oneOfs| && Several(ByTag(self.fields), other.oneOfs, i) {
      SeveralMeans(self, other, i);
      var s, t :| s != t && TakenOver(self, other, i, s) && TakenOver(self, other, i, t);
    }
    if i, s, t :| 0 <= i < |other.oneOfs| && s != t && TakenOver(self, other, i, s) && TakenOver(self, other, i, t) {
      SeveralMeans(self, other, i);
      assert Several(ByTag(self.fields), other.oneOfs, i);
    }
  }

  // ---------------------------------------------------------------- messages

  ghost predicate KeyBroken(
    tags: Dict<nat, FieldElement>, otherTags: Dict<nat, FieldElement>,
    selfNames: map<string, FieldElement>, otherNames: map<string, FieldElement>, t: nat)
  {
    && t in tags.entries
    && (TagAltered(t, tags, selfNames, otherNames) ||
       (t in otherTags.entries && FieldBroken(tags.entries[t], otherTags.entries[t])))
  }

  lemma AlteredJudged(
    c: Ctx, tag: nat, tags: Dict<nat, FieldElement>, selfNames: map<string, FieldElement>,
      otherNames: map<string, FieldElement>, simple: bool)
    requires Fit(c)
    ensures Judged(c, CompareAltered(c, tag, tags, selfNames, otherNames), TagAltered(tag, tags, selfNames, otherNames),
            simple)
  {
    if TagAltered(tag, tags, selfNames, otherNames) { AddJudged(c.Push(tags.entries[tag].name), FIELD_TAG_ALTER); }
  }

  lemma CommonJudged(c: Ctx, tag: nat, tags: Dict<nat, FieldElement>, otherTags: Dict<nat, FieldElement>)
    requires Fit(c)
    ensures Judged(c, CompareCommon(c, tag, tags, otherTags),
                   tag in tags.entries && tag in otherTags.entries &&
                     FieldBroken(tags.entries[tag], otherTags.entries[tag]),
                   SimpleDict(tags) && SimpleDict(otherTags))
    decreases c.Free(), 2, 1
  {
    var at := c.Push(Decimal(tag));
    if tag !in tags.entries {
      AddJudged(at, FIELD_ADD);
    } else if tag !in otherTags.entries {
      AddJudged(at, FIELD_DROP);
    } else {
      FieldJudged(at, tags.entries[tag], otherTags.entries[tag]);
    }
  }

  lemma PlainJudged(
    c: Ctx, tag: nat, tags: Dict<nat, FieldElement>, otherTags: Dict<nat, FieldElement>,
    selfNames: map<string, FieldElement>, otherNames: map<string, FieldElement>)
    requires Fit(c)
    ensures Judged(c, ComparePlain(c, tag, tags, otherTags, selfNames, otherNames),
                   KeyBroken(tags, otherTags, selfNames, otherNames, tag), SimpleDict(tags) && SimpleDict(otherTags))
    decreases c.Free(), 3
  {
    var altered := CompareAltered(c, tag, tags, selfNames, otherNames);
    var simple := SimpleDict(tags) && SimpleDict(otherTags);
    AlteredJudged(c, tag, tags, selfNames, otherNames, simple);
    CommonJudged(altered, tag, tags, otherTags);
    Compose(c, altered, CompareCommon(altered, tag, tags, otherTags), TagAltered(tag, tags, selfNames, otherNames),
            tag in tags.entries && tag in otherTags.entries &&
              FieldBroken(tags.entries[tag], otherTags.entries[tag]), simple);
  }

  ghost predicate SomeKeyBroken(
    keys: seq<nat>, tags: Dict<nat, FieldElement>, otherTags: Dict<nat, FieldElement>,
    selfNames: map<string, FieldElement>, otherNames: map<string, FieldElement>)
  {
    exists t :: t in keys && KeyBroken(tags, otherTags, selfNames, otherNames, t)
  }

  lemma {:induction false} FieldsJudged(
    c: Ctx, keys: seq<nat>, tags: Dict<nat, FieldElement>, otherTags: Dict<nat, FieldElement>,
    selfNames: map<string, FieldElement>, otherNames: map<string, FieldElement>)
    requires Fit(c)
    ensures Judged(c, CompareFields(c, keys, tags, otherTags, selfNames, otherNames),
                   SomeKeyBroken(keys, tags, otherTags, selfNames, otherNames),
                   SimpleDict(tags) && SimpleDict(otherTags))
    decreases c.Free(), 4, |keys|
  {
    if keys != [] {
      var init, tag := keys[..|keys| - 1], keys[|keys| - 1];
      var before := CompareFields(c, init, tags, otherTags, selfNames, otherNames);
      var d := CompareFields(c, keys, tags, otherTags, selfNames, otherNames);
      FieldsJudged(c, init, tags, otherTags, selfNames, otherNames);
      PlainJudged(before, tag, tags, otherTags, selfNames, otherNames);
      Compose(c, before, d, SomeKeyBroken(init, tags, otherTags, selfNames, otherNames),
              KeyBroken(tags, otherTags, selfNames, otherNames, tag), SimpleDict(tags) && SimpleDict(otherTags));
      assert keys == init + [tag];
    }
  }

  ghost predicate SimpleMessage(e: TypeElement) {
    e.MessageElement? ==>
      && SimpleFields(e.fields)
      && (forall i :: 0 <= i < |e.oneOfs| ==> SimpleFields(e.oneOfs[i].fields))
      && forall i :: 0 <= i < |e.nested| ==> SimpleMessage(e.nested[i])
  }

  ghost predicate AllSimple(es: seq<TypeElement>) { forall i :: 0 <= i < |es| ==> SimpleMessage(es[i]) }

  ghost predicate AllUnlocked(locked: set<int>, es: seq<TypeElement>) {
    forall i :: 0 <= i < |es| ==> Unlocked(locked, es[i])
  }

  lemma PlainBrokenMeans(self: TypeElement, other: TypeElement)
    requires self.MessageElement? && other.MessageElement?
    ensures var tags, otherTags := TakeOutAll(ByTag(self.fields), other.oneOfs), ByTag(other.fields);
            (exists t :: PlainBroken(self, other, t)) <==>
              SomeKeyBroken(Chain(tags.keys, otherTags.keys), tags, otherTags, ByFieldName(self.fields),
                ByFieldName(other.fields))
    ensures SimpleFields(self.fields) ==> SimpleDict(TakeOutAll(ByTag(self.fields), other.oneOfs))
    ensures SimpleFields(other.fields) ==> SimpleDict(ByTag(other.fields))
  {
    var tags, otherTags := TakeOutAll(ByTag(self.fields), other.oneOfs), ByTag(other.fields);
    ByTagFrom(self.fields);
    ByTagFrom(other.fields);
    TakeOutAllSpec(ByTag(self.fields), other.oneOfs);
    ChainSpec(tags.keys, otherTags.keys);
    assert forall t: nat :: PlainBroken(self, other, t) <==>
      t in Chain(tags.keys, otherTags.keys) &&
        KeyBroken(tags, otherTags, ByFieldName(self.fields), ByFieldName(other.fields), t);
  }

  lemma OneOfBrokenMeans(self: TypeElement, other: TypeElement)
    requires self.MessageElement? && other.MessageElement?
    ensures var a, b := OneOfsByName(self.oneOfs), OneOfsByName(other.oneOfs);
            (exists n :: SharedOneOfBroken(self, other, n)) <==> SomeOneOfBroken(Chain(a.keys, b.keys), a, b)
    ensures SimpleMessage(self) ==> SimpleOneOfs(OneOfsByName(self.oneOfs))
    ensures SimpleMessage(other) ==> SimpleOneOfs(OneOfsByName(other.oneOfs))
  {
    var a, b := OneOfsByName(self.oneOfs), OneOfsByName(other.oneOfs);
    OneOfsFrom(self.oneOfs);
    OneOfsFrom(other.oneOfs);
    ChainSpec(a.keys, b.keys);
    assert forall n: string :: SharedOneOfBroken(self, other, n) <==>
             n in Chain(a.keys, b.keys) && BothOneOfsBroken(a, b, n);
  }

  /** The verdict on two messages, when the first one is not skipped as locked. */
  ghost predicate BodyVerdict(c: Ctx, d: Ctx, self: TypeElement, other: TypeElement)
    requires self.MessageElement? && other.MessageElement?
  {
    && Kept(c, d) && Fit(d)
    && (AllUnlocked(LockedSet(c), self.nested) && AllCompatible(d.found) ==> !MessageBroken(self, other))
    && (SimpleMessage(self) && SimpleMessage(other) && AllCompatible(c.found) && !MessageBroken(self, other) ==>
         AllCompatible(d.found))
  }

  ghost predicate SomePlainBroken(self: TypeElement, other: TypeElement)
    requires self.MessageElement? && other.MessageElement?
  {
    exists t :: PlainBroken(self, other, t)
  }

  ghost predicate SomeSharedOneOfBroken(self: TypeElement, other: TypeElement)
    requires self.MessageElement? && other.MessageElement?
  {
    exists n :: SharedOneOfBroken(self, other, n)
  }

  lemma ConvertedFieldsJudged(c: Ctx, self: TypeElement, other: TypeElement, simple: bool)
    requires Fit(c) && self.MessageElement? && other.MessageElement?
    ensures Judged(c, CompareConverted(c, ByTag(self.fields), other.oneOfs), FewConverted(self, other), simple)
  {
    FewConvertedMeans(self, other);
    ConvertedJudged(c, ByTag(self.fields), other.oneOfs);
  }

  lemma RemainingFieldsJudged(c: Ctx, d: Ctx, self: TypeElement, other: TypeElement)
    requires Fit(c) && self.MessageElement? && other.MessageElement?
    requires var tags, otherTags := TakeOutAll(ByTag(self.fields), other.oneOfs), ByTag(other.fields);
             d ==
               CompareFields(c, Chain(tags.keys, otherTags.keys), tags, otherTags, ByFieldName(self.fields),
                 ByFieldName(other.fields))
    ensures Judged(c, d, SomePlainBroken(self, other), SimpleMessage(self) && SimpleMessage(other))
    decreases c.Free(), 5, 0
  {
    var tags, otherTags := TakeOutAll(ByTag(self.fields), other.oneOfs), ByTag(other.fields);
    PlainBrokenMeans(self, other);
    FieldsJudged(c, Chain(tags.keys, otherTags.keys), tags, otherTags, ByFieldName(self.fields),
      ByFieldName(other.fields));
  }

  lemma PlainFieldsJudged(c: Ctx, self: TypeElement, other: TypeElement)
    requires Fit(c) && self.MessageElement? && other.MessageElement?
    ensures Judged(c, ComparedFields(c, self, other), FewConverted(self, other) || SomePlainBroken(self, other),
                   SimpleMessage(self) && SimpleMessage(other))
    decreases c.Free(), 5, 1
  {
    var converted := CompareConverted(c, ByTag(self.fields), other.oneOfs);
    var simple := SimpleMessage(self) && SimpleMessage(other);
    ConvertedFieldsJudged(c, self, other, simple);
    RemainingFieldsJudged(converted, ComparedFields(c, self, other), self, other);
    Compose(c, converted, ComparedFields(c, self, other), FewConverted(self, other), SomePlainBroken(self, other),
      simple);
  }

  ghost predicate OwnFieldsBroken(self: TypeElement, other: TypeElement)
    requires self.MessageElement? && other.MessageElement?
  {
    FewConverted(self, other) || SomePlainBroken(self, other) || SomeSharedOneOfBroken(self, other)
  }

  lemma OwnFieldsJudged(c: Ctx, self: TypeElement, other: TypeElement)
    requires Fit(c) && self.MessageElement? && other.MessageElement?
    ensures Judged(c, ComparedOneOfs(c, self, other), OwnFieldsBroken(self, other),
            SimpleMessage(self) && SimpleMessage(other))
    decreases c.Free(), 8
  {
    var a, b := OneOfsByName(self.oneOfs), OneOfsByName(other.oneOfs);
    var fields, simple := ComparedFields(c, self, other), SimpleMessage(self) && SimpleMessage(other);
    PlainFieldsJudged(c, self, other);
    OneOfBrokenMeans(self, other);
    OneOfsJudged(fields, Chain(a.keys, b.keys), a, b);
    assert Judged(fields, ComparedOneOfs(c, self, other), SomeSharedOneOfBroken(self, other), simple);
    Compose(c, fields, ComparedOneOfs(c, self, other), FewConverted(self, other) || SomePlainBroken(self, other),
            SomeSharedOneOfBroken(self, other), simple);
  }

  lemma BodyJudged(c: Ctx, self: TypeElement, other: TypeElement)
    requires Fit(c) && self.MessageElement? && other.MessageElement? && AllKnown(c.idents, self.nested) &&
             Proper(self) && Proper(other)
    ensures BodyVerdict(c, CompareBody(c, self, other), self, other)
    decreases c.Free(), 11
  {
    var ones, d := ComparedOneOfs(c, self, other), CompareBody(c, self, other);
    OwnFieldsJudged(c, self, other);
    ListsJudged(ones, self.nested, other.nested);
    assert LockedSet(ones) == LockedSet(c);
    if AllCompatible(d.found) { PrefixCompatible(ones, d); }
    assert MessageBroken(self, other) <==> OwnFieldsBroken(self, other) || Broken(self.nested, other.nested);
  }

  ghost predicate MessageVerdict(c: Ctx, d: Ctx, self: TypeElement, other: TypeElement)
    requires self.MessageElement?
  {
    && Kept(c, d) && Fit(d)
    && (Unlocked(LockedSet(c), self) && AllCompatible(d.found) && other.MessageElement? ==> !MessageBroken(self, other))
    && (SimpleMessage(self) && SimpleMessage(other) && AllCompatible(c.found)
        && (other.MessageElement? ==> !MessageBroken(self, other)) ==>
          AllCompatible(d.found))
  }

  lemma {:induction false} MessageJudged(c: Ctx, self: TypeElement, other: TypeElement)
    requires Fit(c) && self.MessageElement? && Known(c.idents, self) && Proper(self) && Proper(other)
    ensures MessageVerdict(c, CompareMessage(c, self, other), self, other)
    decreases c.Free(), 0, 0
  {
    AddJudged(c, TYPE_ALTER);
    if other.MessageElement? && self.ident !in c.locked {
      var under := c.(locked := c.locked + [self.ident]);
      LockShrinks(c, self.ident);
      WithoutLast(c.locked, self.ident);
      BodyJudged(under, self, other);
      assert LockedSet(under) == LockedSet(c) + {self.ident};
    }
  }

  // ---------------------------------------------------------------- lists of types

  ghost predicate AtName(self: Dict<string, TypeElement>, other: Dict<string, TypeElement>, n: string) {
    && n in self.entries && self.entries[n].MessageElement?
    && (n !in other.entries || (other.entries[n].MessageElement? && MessageBroken(self.entries[n], other.entries[n])))
  }

  ghost predicate EntriesFit(c: Ctx, self: Dict<string, TypeElement>, other: Dict<string, TypeElement>) {
    && (forall n :: n in self.entries ==> Known(c.idents, self.entries[n]) && Proper(self.entries[n]))
    && (forall n :: n in other.entries ==> Proper(other.entries[n]))
  }

  ghost predicate EntriesUnlocked(c: Ctx, self: Dict<string, TypeElement>) {
    forall n :: n in self.entries ==> Unlocked(LockedSet(c), self.entries[n])
  }

  ghost predicate EntriesSimple(self: Dict<string, TypeElement>) {
    forall n :: n in self.entries ==> SimpleMessage(self.entries[n])
  }

  ghost predicate SomeNameBroken(keys: seq<string>, self: Dict<string, TypeElement>, other: Dict<string, TypeElement>) {
    exists n :: n in keys && AtName(self, other, n)
  }

  ghost predicate NamesVerdict(c: Ctx, d: Ctx, broken: bool, self: Dict<string, TypeElement>,
                               other: Dict<string, TypeElement>) {
    && Kept(c, d) && Fit(d)
    && (EntriesUnlocked(c, self) && AllCompatible(d.found) ==> !broken)
    && (EntriesSimple(self) && EntriesSimple(other) && AllCompatible(c.found) && !broken ==> AllCompatible(d.found))
  }

  lemma SharedMessageJudged(c: Ctx, name: string, self: Dict<string, TypeElement>, other: Dict<string, TypeElement>)
    requires Fit(c) && EntriesFit(c, self, other) && name in self.entries && name in other.entries
    requires self.entries[name].MessageElement? && other.entries[name].MessageElement?
    ensures NamesVerdict(c, CompareName(c, name, self, other), AtName(self, other, name), self, other)
    decreases c.Free(), 7
  {
    var at := c.PushType(name);
    MessageJudged(at, self.entries[name], other.entries[name]);
    assert LockedSet(at) == LockedSet(c);
    assert CompareName(c, name, self, other) == CompareMessage(at, self.entries[name], other.entries[name]).PopType();
  }

  lemma OneSidedJudged(c: Ctx, name: string, self: Dict<string, TypeElement>, other: Dict<string, TypeElement>)
    requires Fit(c) && EntriesFit(c, self, other) && (name !in self.entries || name !in other.entries)
    ensures NamesVerdict(c, CompareName(c, name, self, other), AtName(self, other, name), self, other)
  {
    var at := c.PushType(name);
    if name !in self.entries {
      AddJudged(at, MESSAGE_ADD);
      AddJudged(at, ENUM_ADD);
    } else {
      AddJudged(at, MESSAGE_DROP);
      AddJudged(at, ENUM_DROP);
    }
  }

  lemma EnumNameJudged(c: Ctx, name: string, self: Dict<string, TypeElement>, other: Dict<string, TypeElement>)
    requires Fit(c) && EntriesFit(c, self, other) && name in self.entries && name in other.entries
    requires self.entries[name].EnumElement? && other.entries[name].EnumElement?
    ensures NamesVerdict(c, CompareName(c, name, self, other), AtName(self, other, name), self, other)
  {
    var at := c.PushType(name);
    var d := CompareEnum(at, self.entries[name], other.entries[name]);
    EnumJudged(at, self.entries[name], other.entries[name]);
    assert CompareName(c, name, self, other) == d.PopType() == c.(found := d.found);
  }

  lemma KindNameJudged(c: Ctx, name: string, self: Dict<string, TypeElement>, other: Dict<string, TypeElement>)
    requires Fit(c) && EntriesFit(c, self, other) && name in self.entries && name in other.entries
    requires self.entries[name].MessageElement? != other.entries[name].MessageElement?
    ensures NamesVerdict(c, CompareName(c, name, self, other), AtName(self, other, name), self, other)
  {
    var at := c.PushType(name);
    AddJudged(at, TYPE_ALTER);
    assert CompareName(c, name, self, other) == at.Add(TYPE_ALTER).PopType();
  }

  lemma NameJudged(c: Ctx, name: string, self: Dict<string, TypeElement>, other: Dict<string, TypeElement>)
    requires Fit(c) && EntriesFit(c, self, other)
    ensures NamesVerdict(c, CompareName(c, name, self, other), AtName(self, other, name), self, other)
    decreases c.Free(), 8
  {
    if name !in self.entries || name !in other.entries {
      OneSidedJudged(c, name, self, other);
    } else if self.entries[name].MessageElement? && other.entries[name].MessageElement? {
      SharedMessageJudged(c, name, self, other);
    } else if self.entries[name].EnumElement? && other.entries[name].EnumElement? {
      EnumNameJudged(c, name, self, other);
    } else {
      KindNameJudged(c, name, self, other);
    }
  }

  /** No change to an enum is called incompatible. */
  lemma EnumJudged(c: Ctx, self: TypeElement, other: TypeElement)
    requires self.EnumElement?
    ensures AllCompatible(CompareEnum(c, self, other).found) <==> AllCompatible(c.found)
  {
    AddJudged(c, TYPE_ALTER);
    if other.EnumElement? {
      var a, b := ConstantsByTag(self.constants), ConstantsByTag(other.constants);
      ConstantsJudged(c, Chain(a.keys, b.keys), a, b);
    }
  }

  lemma ConstantJudged(c: Ctx, tag: nat, self: Dict<nat, EnumConstant>, other: Dict<nat, EnumConstant>)
    ensures AllCompatible(CompareConstant(c, tag, self, other).found) <==> AllCompatible(c.found)
  {
    var at := c.Push(Decimal(tag));
    AddJudged(at, ENUM_CONSTANT_ADD);
    AddJudged(at, ENUM_CONSTANT_DROP);
    AddJudged(at, ENUM_CONSTANT_ALTER);
  }

  lemma {:induction false} ConstantsJudged(c: Ctx, keys: seq<nat>, self: Dict<nat, EnumConstant>,
                                           other: Dict<nat, EnumConstant>)
    ensures AllCompatible(CompareConstants(c, keys, self, other).found) <==> AllCompatible(c.found)
  {
    if keys != [] {
      ConstantsJudged(c, keys[..|keys| - 1], self, other);
      ConstantJudged(CompareConstants(c, keys[..|keys| - 1], self, other), keys[|keys| - 1], self, other);
    }
  }

  lemma ComposeNames(c: Ctx, b: Ctx, d: Ctx, first: bool, second: bool, self: Dict<string, TypeElement>,
                     other: Dict<string, TypeElement>)
    requires NamesVerdict(c, b, first, self, other) && NamesVerdict(b, d, second, self, other)
    ensures NamesVerdict(c, d, first || second, self, other)
  {
    assert LockedSet(b) == LockedSet(c);
    if AllCompatible(d.found) { PrefixCompatible(b, d); }
  }

  lemma SomeNameSnoc(keys: seq<string>, self: Dict<string, TypeElement>, other: Dict<string, TypeElement>)
    requires keys != []
    ensures SomeNameBroken(keys, self, other) <==>
            SomeNameBroken(keys[..|keys| - 1], self, other) || AtName(self, other, keys[|keys| - 1])
  {
    assert keys == keys[..|keys| - 1] + [keys[|keys| - 1]];
  }

  lemma {:induction false} NamesJudged(c: Ctx, keys: seq<string>, self: Dict<string, TypeElement>,
                                       other: Dict<string, TypeElement>)
    requires Fit(c) && EntriesFit(c, self, other)
    ensures NamesVerdict(c, CompareNames(c, keys, self, other), SomeNameBroken(keys, self, other), self, other)
    decreases c.Free(), 9, |keys|
  {
    if keys != [] {
      var init, name := keys[..|keys| - 1], keys[|keys| - 1];
      var before, d := CompareNames(c, init, self, other), CompareNames(c, keys, self, other);
      NamesJudged(c, init, self, other);
      NameJudged(before, name, self, other);
      ComposeNames(c, before, d, SomeNameBroken(init, self, other), AtName(self, other, name), self, other);
      SomeNameSnoc(keys, self, other);
    }
  }

  ghost predicate ListsVerdict(c: Ctx, d: Ctx, selfs: seq<TypeElement>, others: seq<TypeElement>) {
    && Kept(c, d) && Fit(d)
    && (AllUnlocked(LockedSet(c), selfs) && AllCompatible(d.found) ==> !Broken(selfs, others))
    && (AllSimple(selfs) && AllSimple(others) && AllCompatible(c.found) && !Broken(selfs, others) ==>
         AllCompatible(d.found))
  }

  lemma BrokenMeans(selfs: seq<TypeElement>, others: seq<TypeElement>)
    ensures var a, b := TypesByName(selfs), TypesByName(others);
            Broken(selfs, others) <==> SomeNameBroken(Chain(a.keys, b.keys), a, b)
  {
    var a, b := TypesByName(selfs), TypesByName(others);
    TypesFrom(selfs);
    ChainSpec(a.keys, b.keys);
    if k, n :| 0 <= k < |selfs| && NameBroken(selfs, others, k, n) {
      assert n in Chain(a.keys, b.keys) && AtName(a, b, n);
    }
    if n :| n in Chain(a.keys, b.keys) && AtName(a, b, n) {
      var k :| 0 <= k < |selfs| && selfs[k] == a.entries[n];
      assert NameBroken(selfs, others, k, n);
    }
  }

  lemma {:induction false} ListsJudged(c: Ctx, selfs: seq<TypeElement>, others: seq<TypeElement>)
    requires Fit(c) && AllKnown(c.idents, selfs) && AllProper(selfs) && AllProper(others)
    ensures ListsVerdict(c, CompareTypeLists(c, selfs, others), selfs, others)
    decreases c.Free(), 10
  {
    AddTypesKnown(c.idents, c.selfPackage, Some(c.selfPackage), selfs, c.selfTypes);
    AddTypesProper(c.selfPackage, Some(c.selfPackage), selfs, c.selfTypes);
    AddTypesProper(c.otherPackage, Some(c.otherPackage), others, c.otherTypes);
    TypesByNameKnown(c.idents, selfs);
    TypesFrom(selfs);
    TypesFrom(others);
    BrokenMeans(selfs, others);
    var a, b, entered := TypesByName(selfs), TypesByName(others), Entered(c, selfs, others);
    assert LockedSet(entered) == LockedSet(c);
    NamesJudged(entered, Chain(a.keys, b.keys), a, b);
  }

  // ---------------------------------------------------------------- files

  /** Declared names are identifiers other than the scalar type names, in the file and in all it depends on. */
  ghost predicate FileProper(f: ProtoFile) {
    '<' !in f.Package() && AllProper(f.types) && forall i :: 0 <= i < |f.dependencies| ==> FileProper(f.dependencies[i])
  }

  lemma {:induction false} CollectedProper(files: seq<ProtoFile>, types: map<string, TypeRecord>)
    requires TableProper(types) && forall i :: 0 <= i < |files| ==> FileProper(files[i])
    ensures TableProper(Collected(files, types))
    decreases files
  {
    if files != [] {
      var f := files[0];
      var entered := AddTypes(f.Package(), f.packageName, f.types, types);
      AddTypesProper(f.Package(), f.packageName, f.types, types);
      if f.referring {
        CollectedProper(f.dependencies, entered);
        CollectedProper(files[1..], Collected(f.dependencies, entered));
      }
    }
  }

  lemma DependenciesProper(f: ProtoFile)
    requires FileProper(f)
    ensures TableProper(Dependencies(f))
  {
    CollectedProper(f.dependencies, map[]);
  }

  lemma StartCompatible(f: ProtoFile, g: ProtoFile)
    ensures AllCompatible(Start(f, g).found) && Start(f, g).locked == []
  {
    var c := Ctx(f.Package(), g.Package(), Dependencies(f), Dependencies(g), [], [], [], [], Start(f, g).idents);
    AddJudged(c, PACKAGE_ALTER);
    AddJudged(c, SYNTAX_ALTER);
    AddJudged(c.Add(PACKAGE_ALTER), SYNTAX_ALTER);
  }

  lemma StartFits(f: ProtoFile, g: ProtoFile)
    requires FileProper(f) && FileProper(g)
    ensures Fit(Start(f, g))
  {
    DependenciesProper(f);
    DependenciesProper(g);
  }

  /** A file called compatible breaks nothing, at any depth. For files whose fields are scalars and maps of scalars
      the verdict is exactly that. */
  lemma FileVerdict(f: ProtoFile, g: ProtoFile)
    requires FileProper(f) && FileProper(g) && AllUnlocked({}, f.types)
    ensures AllCompatible(CompareFiles(f, g)) ==> !Broken(f.types, g.types)
    ensures AllSimple(f.types) && AllSimple(g.types) ==>
              (AllCompatible(CompareFiles(f, g)) <==> !Broken(f.types, g.types))
  {
    StartFits(f, g);
    StartCompatible(f, g);
    assert LockedSet(Start(f, g)) == {};
    ListsJudged(Start(f, g), f.types, g.types);
  }
}
