/** The exact verdict of `ProtobufExact` without its recursion: something is incompatible if and only if a chain of
    messages, each named by fields of the one before, leads to a pair that is broken by itself. */
module ProtobufChains {
  import opened SchemaModels
  import opened ProtobufModel
  import opened ProtobufCompare
  import opened ProtobufTables
  import opened ProtobufVerdict
  import opened ProtobufExact

  // ---------------------------------------------------------------- one pair of messages

  /** The types do not fit by themselves, whatever messages they may name hold. */
  ghost predicate TypeLocal(v: View, l: Option<Label>, t: ProtoType, u: ProtoType, l': Option<Label>) {
    var enum, enum' := SelfEnum(v, t), OtherEnum(v, u);
    if t.MapOf? && u.MapOf? then TypeLocal(v, l, t.key, u.key, None) || TypeLocal(v, l, t.value, u.value, None)
    else if t.MapOf? != u.MapOf? || (t.Scalar? || enum) != (u.Scalar? || enum') then true
    else (t.Scalar? || enum) && KindBroken(l, KindOf(t, enum), KindOf(u, enum'), l')
  }

  /** The types, or parts of them, name these two messages and have them compared. */
  ghost predicate TypeLink(v: View, t: ProtoType, u: ProtoType, a: TypeElement, b: TypeElement) {
    if t.MapOf? && u.MapOf? then TypeLink(v, t.key, u.key, a, b) || TypeLink(v, t.value, u.value, a, b)
    else
      && Paired(v, t, u) && !SelfEnum(v, t) && !OtherEnum(v, u)
      && a == v.selfTypes[SelfAt(v, t).value].element && b == v.otherTypes[OtherAt(v, u).value].element
  }

  ghost predicate LinkedBad(v: View, locked: set<int>, t: ProtoType, u: ProtoType) {
    exists a, b :: TypeLink(v, t, u, a, b) && MessageBad(v, locked, a, b)
  }

  lemma {:induction false} TypeSplit(v: View, locked: set<int>, l: Option<Label>, t: ProtoType, u: ProtoType,
                                     l': Option<Label>)
    ensures TypeBad(v, locked, l, t, u, l') <==> TypeLocal(v, l, t, u, l') || LinkedBad(v, locked, t, u)
    decreases t
  {
    if t.MapOf? && u.MapOf? {
      TypeSplit(v, locked, l, t.key, u.key, None);
      TypeSplit(v, locked, l, t.value, u.value, None);
      MapLinked(v, locked, t, u);
    } else {
      NamedLinked(v, locked, t, u);
    }
  }

  lemma MapLinked(v: View, locked: set<int>, t: ProtoType, u: ProtoType)
    requires t.MapOf? && u.MapOf?
    ensures LinkedBad(v, locked, t, u) <==> LinkedBad(v, locked, t.key, u.key) || LinkedBad(v, locked, t.value, u.value)
  {
    if a, b :| TypeLink(v, t.key, u.key, a, b) && MessageBad(v, locked, a, b) { assert TypeLink(v, t, u, a, b); }
    if a, b :| TypeLink(v, t.value, u.value, a, b) && MessageBad(v, locked, a, b) { assert TypeLink(v, t, u, a, b); }
  }

  lemma NamedLinked(v: View, locked: set<int>, t: ProtoType, u: ProtoType)
    requires !(t.MapOf? && u.MapOf?)
    ensures LinkedBad(v, locked, t, u) <==>
            Paired(v, t, u) && !SelfEnum(v, t) && !OtherEnum(v, u) && NamedBad(v, locked, t, u)
  {
    if Paired(v, t, u) && !SelfEnum(v, t) && !OtherEnum(v, u) && NamedBad(v, locked, t, u) {
      var a, b := v.selfTypes[SelfAt(v, t).value].element, v.otherTypes[OtherAt(v, u).value].element;
      assert TypeLink(v, t, u, a, b) && MessageBad(v, locked, a, b);
    }
  }

  /** The comparison of the messages compares these two fields, as plain fields or as members of a one-of. */
  ghost predicate Compared(self: TypeElement, other: TypeElement, f: FieldElement, g: FieldElement)
    requires self.MessageElement? && other.MessageElement?
  {
    (exists t :: PlainPair(self, other, f, g, t)) || (exists n, t :: OneOfPair(self, other, f, g, n, t))
  }

  ghost predicate PlainPair(self: TypeElement, other: TypeElement, f: FieldElement, g: FieldElement, t: nat)
    requires self.MessageElement? && other.MessageElement?
  {
    var a, b := ByTag(self.fields).entries, ByTag(other.fields).entries;
    t in a && t in b && !InOneOf(other.oneOfs, t) && f == a[t] && g == b[t]
  }

  ghost predicate OneOfPair(self: TypeElement, other: TypeElement, f: FieldElement, g: FieldElement, n: string, t: nat)
    requires self.MessageElement? && other.MessageElement?
  {
    var a, b := OneOfsByName(self.oneOfs).entries, OneOfsByName(other.oneOfs).entries;
    n in a && n in b &&
    var x, y := ByTag(a[n].fields).entries, ByTag(b[n].fields).entries;
    t in x && t in y && f == x[t] && g == y[t]
  }

  /** A plain field that did not move into a one-of changed its number. */
  ghost predicate Renumbered(self: TypeElement, other: TypeElement)
    requires self.MessageElement? && other.MessageElement?
  {
    exists t :: RenumberedAt(self, other, t)
  }

  ghost predicate RenumberedAt(self: TypeElement, other: TypeElement, t: nat)
    requires self.MessageElement? && other.MessageElement?
  {
    && t in ByTag(self.fields).entries && !InOneOf(other.oneOfs, t)
    && TagAltered(t, ByTag(self.fields), ByFieldName(self.fields), ByFieldName(other.fields))
  }

  /** A field of a one-of that both have is gone. */
  ghost predicate LostMember(self: TypeElement, other: TypeElement)
    requires self.MessageElement? && other.MessageElement?
  {
    exists n, t :: LostAt(self, other, n, t)
  }

  ghost predicate LostAt(self: TypeElement, other: TypeElement, n: string, t: nat)
    requires self.MessageElement? && other.MessageElement?
  {
    var a, b := OneOfsByName(self.oneOfs).entries, OneOfsByName(other.oneOfs).entries;
    n in a && n in b && t in ByTag(a[n].fields).entries && t !in ByTag(b[n].fields).entries
  }

  ghost predicate FieldLocal(v: View, f: FieldElement, g: FieldElement) {
    TypeLocal(v, f.fieldLabel, f.elementType, g.elementType, g.fieldLabel)
  }

  /** The two messages are broken by themselves: fields merged into a one-of, renumbered, lost from a one-of, or of
      types that do not fit. */
  ghost predicate Local(v: View, self: TypeElement, other: TypeElement)
    requires self.MessageElement? && other.MessageElement?
  {
    || FewConverted(self, other) || Renumbered(self, other) || LostMember(self, other)
    || exists f, g :: Compared(self, other, f, g) && FieldLocal(v, f, g)
  }

  /** Two fields that are compared name these messages. */
  ghost predicate Link(v: View, self: TypeElement, other: TypeElement, a: TypeElement, b: TypeElement)
    requires self.MessageElement? && other.MessageElement?
  {
    exists f, g :: Compared(self, other, f, g) && TypeLink(v, f.elementType, g.elementType, a, b)
  }

  ghost predicate SomeComparedBad(v: View, locked: set<int>, self: TypeElement, other: TypeElement)
    requires self.MessageElement? && other.MessageElement?
  {
    exists f, g :: Compared(self, other, f, g) && FieldBad(v, locked, f, g)
  }

  lemma PlainGathered(v: View, locked: set<int>, self: TypeElement, other: TypeElement)
    requires self.MessageElement? && other.MessageElement? && SomePlainBad(v, locked, self, other)
    ensures Renumbered(self, other) || SomeComparedBad(v, locked, self, other)
  {
    var t :| PlainBad(v, locked, self, other, t);
    var a, b := ByTag(self.fields).entries, ByTag(other.fields).entries;
    if RenumberedAt(self, other, t) {
    } else {
      assert PlainPair(self, other, a[t], b[t], t);
      assert Compared(self, other, a[t], b[t]) && FieldBad(v, locked, a[t], b[t]);
    }
  }

  lemma SharedGathered(v: View, locked: set<int>, self: TypeElement, other: TypeElement)
    requires self.MessageElement? && other.MessageElement? && SomeSharedBad(v, locked, self, other)
    ensures LostMember(self, other) || SomeComparedBad(v, locked, self, other)
  {
    var n :| SharedBad(v, locked, self, other, n);
    var a, b := OneOfsByName(self.oneOfs).entries[n], OneOfsByName(other.oneOfs).entries[n];
    var x, y := ByTag(a.fields).entries, ByTag(b.fields).entries;
    assert OneOfBad(v, locked, a, b);
    var t :| t in x && (t !in y || FieldBad(v, locked, x[t], y[t]));
    if t !in y {
      assert LostAt(self, other, n, t);
    } else {
      assert OneOfPair(self, other, x[t], y[t], n, t);
      assert Compared(self, other, x[t], y[t]);
    }
  }

  lemma ComparedIsBad(v: View, locked: set<int>, self: TypeElement, other: TypeElement, f: FieldElement,
                      g: FieldElement)
    requires self.MessageElement? && other.MessageElement? && Compared(self, other, f, g) && FieldBad(v, locked, f, g)
    ensures BodyBad(v, locked, self, other)
  {
    if t :| PlainPair(self, other, f, g, t) {
      assert PlainBad(v, locked, self, other, t);
    } else {
      var n, t :| OneOfPair(self, other, f, g, n, t);
      var a, b := OneOfsByName(self.oneOfs).entries[n], OneOfsByName(other.oneOfs).entries[n];
      assert t in ByTag(a.fields).entries;
      assert OneOfBad(v, locked, a, b);
      assert SharedBad(v, locked, self, other, n);
    }
  }

  lemma OwnIsBad(v: View, locked: set<int>, self: TypeElement, other: TypeElement)
    requires self.MessageElement? && other.MessageElement? && (Renumbered(self, other) || LostMember(self, other))
    ensures BodyBad(v, locked, self, other)
  {
    if t :| RenumberedAt(self, other, t) {
      assert PlainBad(v, locked, self, other, t);
    } else {
      var n, t :| LostAt(self, other, n, t);
      var a, b := OneOfsByName(self.oneOfs).entries[n], OneOfsByName(other.oneOfs).entries[n];
      assert t in ByTag(a.fields).entries;
      assert OneOfBad(v, locked, a, b);
      assert SharedBad(v, locked, self, other, n);
    }
  }

  lemma BodyGathered(v: View, locked: set<int>, self: TypeElement, other: TypeElement)
    requires self.MessageElement? && other.MessageElement?
    ensures BodyBad(v, locked, self, other) <==>
            || FewConverted(self, other) || Renumbered(self, other) || LostMember(self, other)
            || SomeComparedBad(v, locked, self, other)
  {
    if SomePlainBad(v, locked, self, other) { PlainGathered(v, locked, self, other); }
    if SomeSharedBad(v, locked, self, other) { SharedGathered(v, locked, self, other); }
    if Renumbered(self, other) || LostMember(self, other) { OwnIsBad(v, locked, self, other); }
    if f, g :| Compared(self, other, f, g) && FieldBad(v, locked, f, g) { ComparedIsBad(v, locked, self, other, f, g); }
  }

  ghost predicate LinkBad(v: View, locked: set<int>, self: TypeElement, other: TypeElement)
    requires self.MessageElement? && other.MessageElement?
  {
    exists a, b :: Link(v, self, other, a, b) && MessageBad(v, locked, a, b)
  }

  /** A pair of messages is bad if it is broken by itself or linked to a bad pair. */
  lemma BodySplit(v: View, locked: set<int>, self: TypeElement, other: TypeElement)
    requires self.MessageElement? && other.MessageElement?
    ensures BodyBad(v, locked, self, other) <==> Local(v, self, other) || LinkBad(v, locked, self, other)
  {
    BodyGathered(v, locked, self, other);
    if f, g :| Compared(self, other, f, g) && FieldBad(v, locked, f, g) {
      TypeSplit(v, locked, f.fieldLabel, f.elementType, g.elementType, g.fieldLabel);
      if !FieldLocal(v, f, g) {
        var a, b :| TypeLink(v, f.elementType, g.elementType, a, b) && MessageBad(v, locked, a, b);
        assert Link(v, self, other, a, b);
      }
    }
    if f, g :| Compared(self, other, f, g) && FieldLocal(v, f, g) {
      TypeSplit(v, locked, f.fieldLabel, f.elementType, g.elementType, g.fieldLabel);
      assert FieldBad(v, locked, f, g);
    }
    if a, b :| Link(v, self, other, a, b) && MessageBad(v, locked, a, b) { LinkIsBad(v, locked, self, other, a, b); }
  }

  lemma LinkIsBad(v: View, locked: set<int>, self: TypeElement, other: TypeElement, a: TypeElement, b: TypeElement)
    requires self.MessageElement? && other.MessageElement? && Link(v, self, other, a, b) && MessageBad(v, locked, a, b)
    ensures SomeComparedBad(v, locked, self, other)
  {
    var f, g :| Compared(self, other, f, g) && TypeLink(v, f.elementType, g.elementType, a, b);
    TypeSplit(v, locked, f.fieldLabel, f.elementType, g.elementType, g.fieldLabel);
    assert FieldBad(v, locked, f, g);
  }

  // ---------------------------------------------------------------- chains

  datatype Pair = Pair(self: TypeElement, other: TypeElement) {
    predicate Messages() { self.MessageElement? && other.MessageElement? }
  }

  /** Each pair is linked to the next, no identity occurs twice or is in `locked`, and the last is broken by itself. */
  ghost predicate Chained(v: View, locked: set<int>, chain: seq<Pair>)
    decreases |chain|
  {
    && chain != [] && chain[0].Messages() && chain[0].self.ident in v.idents && chain[0].self.ident !in locked
    && if |chain| == 1 then Local(v, chain[0].self, chain[0].other)
       else && Link(v, chain[0].self, chain[0].other, chain[1].self, chain[1].other)
            && Chained(v, locked + {chain[0].self.ident}, chain[1..])
  }

  lemma {:induction false} ChainFound(v: View, locked: set<int>, self: TypeElement, other: TypeElement)
    returns (chain: seq<Pair>)
    requires MessageBad(v, locked, self, other)
    ensures chain != [] && chain[0] == Pair(self, other) && Chained(v, locked, chain)
    decreases Left(v, locked)
  {
    var under := locked + {self.ident};
    assert self.ident in Left(v, locked) && self.ident !in Left(v, under);
    BodySplit(v, under, self, other);
    if Local(v, self, other) {
      chain := [Pair(self, other)];
    } else {
      var a, b :| Link(v, self, other, a, b) && MessageBad(v, under, a, b);
      var rest := ChainFound(v, under, a, b);
      chain := [Pair(self, other)] + rest;
      assert chain[1..] == rest;
    }
  }

  lemma {:induction false} ChainIsBad(v: View, locked: set<int>, chain: seq<Pair>)
    requires Chained(v, locked, chain)
    ensures MessageBad(v, locked, chain[0].self, chain[0].other)
    decreases |chain|
  {
    var self, other := chain[0].self, chain[0].other;
    var under := locked + {self.ident};
    BodySplit(v, under, self, other);
    if |chain| > 1 {
      ChainIsBad(v, under, chain[1..]);
      assert LinkBad(v, under, self, other);
    }
  }

  /** Two messages are bad if and only if a chain of different messages leads from them to a pair broken by itself. */
  lemma BadIffChained(v: View, self: TypeElement, other: TypeElement)
    ensures MessageBad(v, {}, self, other) <==>
            exists chain :: chain != [] && chain[0] == Pair(self, other) && Chained(v, {}, chain)
  {
    if MessageBad(v, {}, self, other) { var chain := ChainFound(v, {}, self, other); }
    if chain :| chain != [] && chain[0] == Pair(self, other) && Chained(v, {}, chain) { ChainIsBad(v, {}, chain); }
  }

  /** A message of the file that has gone. */
  ghost predicate Gone(f: ProtoFile, g: ProtoFile, n: string) {
    n in TypesByName(f.types).entries && TypesByName(f.types).entries[n].MessageElement? &&
    n !in TypesByName(g.types).entries
  }

  /** The messages that both files have under this name. */
  ghost predicate Kin(f: ProtoFile, g: ProtoFile, n: string, pair: Pair) {
    && n in TypesByName(f.types).entries && n in TypesByName(g.types).entries
    && pair == Pair(TypesByName(f.types).entries[n], TypesByName(g.types).entries[n])
  }

  ghost predicate BrokenChain(f: ProtoFile, g: ProtoFile, n: string, chain: seq<Pair>) {
    chain != [] && Kin(f, g, n, chain[0]) && Chained(ViewOf(f, g), {}, chain)
  }

  /** For two files without nested types whose names of fields are all declared and unambiguous: they are called
      incompatible if and only if a message is gone, or from two messages of the same name a chain of different
      messages, each named by fields of the one before, leads to a pair broken by itself. */
  lemma IncompatibleIff(f: ProtoFile, g: ProtoFile)
    requires Plainly(f, g)
    ensures !AllCompatible(CompareFiles(f, g)) <==>
            (exists n :: Gone(f, g, n)) || (exists n, chain :: BrokenChain(f, g, n, chain))
  {
    var v, a, b := ViewOf(f, g), TypesByName(f.types), TypesByName(g.types);
    FileExact(f, g);
    if n :| NameBad(v, a, b, n) {
      if n in b.entries {
        BadIffChained(v, a.entries[n], b.entries[n]);
        var chain :| chain != [] && chain[0] == Pair(a.entries[n], b.entries[n]) && Chained(v, {}, chain);
        assert BrokenChain(f, g, n, chain);
      } else {
        assert Gone(f, g, n);
      }
    }
    if n :| Gone(f, g, n) { assert NameBad(v, a, b, n); }
    if n, chain :| BrokenChain(f, g, n, chain) {
      ChainIsBad(v, {}, chain);
      assert NameBad(v, a, b, n);
    }
  }
}
