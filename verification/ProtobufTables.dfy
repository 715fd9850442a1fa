/** What the dictionaries of a comparison hold: the last element with each number or name. */
module ProtobufTables {
  import opened Dicts
  import opened SchemaModels
  import opened ProtobufModel
  import opened ProtobufCompare

  /** A type of a package has the name by which the package knows it. */
  lemma ShortNameMeans(package: string, short: string, e: TypeElement)
    ensures ShortName(package + "." + short, TypeRecord(Some(package), e)) == short
    ensures ShortName(short, TypeRecord(None, e)) == short
  {
    var name := package + "." + short;
    assert package <= name && name[|package| + 1..] == short;
  }

  lemma {:induction false} EntersMore(prefix: string, package: Option<string>, es: seq<TypeElement>,
                                      types: map<string, TypeRecord>)
    ensures types.Keys <= AddTypes(prefix, package, es, types).Keys
    ensures forall i :: 0 <= i < |es| ==> KeyUnder(prefix, es[i].name) in AddTypes(prefix, package, es, types)
    decreases es, 0
  {
    if es != [] {
      var one := AddType(prefix, package, es[0], types);
      EntersOne(prefix, package, es[0], types);
      EntersMore(prefix, package, es[1..], one);
      assert forall i :: 1 <= i < |es| ==> es[i] == es[1..][i - 1];
    }
  }

  function KeyUnder(prefix: string, name: string): string { if prefix != "" then prefix + "." + name else name }

  /** A type is entered under the name of what encloses it, and every type nested in it under its own. */
  lemma {:induction false} EntersOne(prefix: string, package: Option<string>, e: TypeElement,
                                     types: map<string, TypeRecord>)
    ensures var table := AddType(prefix, package, e, types);
            && types.Keys <= table.Keys && KeyUnder(prefix, e.name) in table
            && (e.MessageElement? ==>
                  forall i :: 0 <= i < |e.nested| ==> KeyUnder(KeyUnder(prefix, e.name), e.nested[i].name) in table)
            && (e.EnumElement? ==> table == types[KeyUnder(prefix, e.name) := TypeRecord(package, e)])
    decreases e, 1
  {
    var name := KeyUnder(prefix, e.name);
    if e.MessageElement? { EntersMore(name, package, e.nested, types[name := TypeRecord(package, e)]); }
  }

  lemma {:induction false} ByTagFrom(fields: seq<FieldElement>)
    ensures ByTag(fields).Ok()
    ensures forall t :: t in ByTag(fields).entries ==>
              ByTag(fields).entries[t] in fields && ByTag(fields).entries[t].tag == t
  {
    if fields != [] {
      ByTagFrom(fields[..|fields| - 1]);
      ByTag(fields[..|fields| - 1]).PutOk(fields[|fields| - 1].tag, fields[|fields| - 1]);
    }
  }

  lemma {:induction false} OneOfsFrom(ones: seq<OneOfElement>)
    ensures OneOfsByName(ones).Ok()
    ensures forall n :: n in OneOfsByName(ones).entries ==> OneOfsByName(ones).entries[n] in ones
  {
    if ones != [] {
      OneOfsFrom(ones[..|ones| - 1]);
      OneOfsByName(ones[..|ones| - 1]).PutOk(ones[|ones| - 1].name, ones[|ones| - 1]);
    }
  }

  lemma {:induction false} TypesFrom(es: seq<TypeElement>)
    ensures TypesByName(es).Ok()
    ensures forall n :: n in TypesByName(es).entries ==> TypesByName(es).entries[n] in es
  {
    if es != [] {
      TypesFrom(es[..|es| - 1]);
      TypesByName(es[..|es| - 1]).PutOk(es[|es| - 1].name, es[|es| - 1]);
    }
  }

  lemma {:induction false} ConstantsFrom(cs: seq<EnumConstant>)
    ensures ConstantsByTag(cs).Ok()
  {
    if cs != [] {
      ConstantsFrom(cs[..|cs| - 1]);
      ConstantsByTag(cs[..|cs| - 1]).PutOk(cs[|cs| - 1].tag, cs[|cs| - 1]);
    }
  }

  lemma {:induction false} MinusSelf<K>(keys: seq<K>, drop: seq<K>)
    requires forall k :: k in keys ==> k in drop
    ensures Minus(keys, drop) == []
  {
    if keys != [] { MinusSelf(keys[..|keys| - 1], drop); }
  }

  lemma ChainSelf<K>(keys: seq<K>)
    ensures Chain(keys, keys) == keys
  {
    MinusSelf(keys, keys);
  }

  lemma {:induction false} MinusSpec<K(!new)>(keys: seq<K>, drop: seq<K>)
    ensures forall k :: k in Minus(keys, drop) <==> k in keys && k !in drop
  {
    if keys != [] {
      MinusSpec(keys[..|keys| - 1], drop);
      assert keys == keys[..|keys| - 1] + [keys[|keys| - 1]];
    }
  }

  lemma ChainSpec<K(!new)>(a: seq<K>, b: seq<K>)
    ensures forall k :: k in Chain(a, b) <==> k in a || k in b
  {
    MinusSpec(b, a);
  }

  ghost predicate HasTag(fields: seq<FieldElement>, tag: nat) { exists i :: 0 <= i < |fields| && fields[i].tag == tag }

  ghost predicate InOneOf(ones: seq<OneOfElement>, tag: nat) {
    exists i :: 0 <= i < |ones| && HasTag(ones[i].fields, tag)
  }

  lemma {:induction false} ByTagHas(fields: seq<FieldElement>)
    ensures forall t :: t in ByTag(fields).entries <==> HasTag(fields, t)
  {
    if fields != [] {
      var init, last := fields[..|fields| - 1], fields[|fields| - 1];
      ByTagHas(init);
      forall t: nat ensures HasTag(fields, t) <==> HasTag(init, t) || t == last.tag { HasTagSnoc(fields, t); }
    }
  }

  lemma HasTagSnoc(fields: seq<FieldElement>, t: nat)
    requires fields != []
    ensures HasTag(fields, t) <==> HasTag(fields[..|fields| - 1], t) || t == fields[|fields| - 1].tag
  {
    var init := fields[..|fields| - 1];
    if i :| 0 <= i < |fields| && fields[i].tag == t { if i < |init| { assert init[i].tag == t; } }
    if i :| 0 <= i < |init| && init[i].tag == t { assert fields[i].tag == t; }
  }

  lemma {:induction false} NothingTakenOut(tags: Dict<nat, FieldElement>, fields: seq<FieldElement>)
    requires forall t :: t in tags.entries ==> !HasTag(fields, t)
    ensures TakeOut(tags, fields) == (tags, 0)
  {
    if fields != [] {
      forall t | t in tags.entries ensures !HasTag(fields[..|fields| - 1], t) { HasTagSnoc(fields, t); }
      NothingTakenOut(tags, fields[..|fields| - 1]);
      assert HasTag(fields, fields[|fields| - 1].tag);
    }
  }

  /** What is left are the plain fields whose number the one-of does not use. */
  lemma {:induction false} TakeOutSpec(tags: Dict<nat, FieldElement>, fields: seq<FieldElement>)
    requires tags.Ok()
    ensures TakeOut(tags, fields).0.Ok()
    ensures forall t :: t in TakeOut(tags, fields).0.entries <==> t in tags.entries && !HasTag(fields, t)
    ensures forall t :: t in TakeOut(tags, fields).0.entries ==> TakeOut(tags, fields).0.entries[t] == tags.entries[t]
  {
    if fields != [] {
      var init, last := fields[..|fields| - 1], fields[|fields| - 1];
      TakeOutSpec(tags, init);
      var rest := TakeOut(tags, init).0;
      rest.PopOk(last.tag);
      forall t: nat ensures HasTag(fields, t) <==> HasTag(init, t) || t == last.tag { HasTagSnoc(fields, t); }
    }
  }

  lemma InOneOfSnoc(ones: seq<OneOfElement>, t: nat)
    requires ones != []
    ensures InOneOf(ones, t) <==> InOneOf(ones[..|ones| - 1], t) || HasTag(ones[|ones| - 1].fields, t)
  {
    var init := ones[..|ones| - 1];
    if i :| 0 <= i < |ones| && HasTag(ones[i].fields, t) { if i < |init| { assert HasTag(init[i].fields, t); } }
    if i :| 0 <= i < |init| && HasTag(init[i].fields, t) { assert HasTag(ones[i].fields, t); }
  }

  lemma {:induction false} TakeOutAllSpec(tags: Dict<nat, FieldElement>, ones: seq<OneOfElement>)
    requires tags.Ok()
    ensures TakeOutAll(tags, ones).Ok()
    ensures forall t :: t in TakeOutAll(tags, ones).entries <==> t in tags.entries && !InOneOf(ones, t)
    ensures forall t :: t in TakeOutAll(tags, ones).entries ==> TakeOutAll(tags, ones).entries[t] == tags.entries[t]
  {
    if ones != [] {
      var init, one := ones[..|ones| - 1], ones[|ones| - 1];
      TakeOutAllSpec(tags, init);
      TakeOutSpec(TakeOutAll(tags, init), one.fields);
      forall t: nat ensures InOneOf(ones, t) <==> InOneOf(init, t) || HasTag(one.fields, t) { InOneOfSnoc(ones, t); }
    }
  }
}
