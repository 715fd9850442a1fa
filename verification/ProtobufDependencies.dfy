/** Which of the files a file depends on have their types entered into the type tables, and what a change in one that
    has not can hide. */
module ProtobufDependencies {
  import opened Dicts
  import opened SchemaModels
  import opened Text
  import opened ProtobufModel
  import opened ProtobufCompare
  import opened ProtobufTables
  import opened ProtobufReflexive
  import opened ProtobufVerdict
  import opened ProtobufWire
  import opened ProtobufExact
  import opened ProtobufChains

  // ---------------------------------------------------------------- which files are entered

  /** All files reached by references, each before what it depends on itself. */
  function AllFiles(files: seq<ProtoFile>): seq<ProtoFile>
    decreases files
  {
    if files == [] then [] else [files[0]] + AllFiles(files[0].dependencies) + AllFiles(files[1..])
  }

  /** Those that `_collect_dependencies_types` gets to, with its early return. */
  function Entered(files: seq<ProtoFile>): seq<ProtoFile>
    decreases files
  {
    if files == [] then []
    else if !files[0].referring then [files[0]]
    else [files[0]] + Entered(files[0].dependencies) + Entered(files[1..])
  }

  /** The types of these files, entered one file after the other. */
  function EnterAll(files: seq<ProtoFile>, types: map<string, TypeRecord>): map<string, TypeRecord> {
    if files == [] then types
    else EnterAll(files[1..], AddTypes(files[0].Package(), files[0].packageName, files[0].types, types))
  }

  lemma {:induction false} EnterAllAppend(a: seq<ProtoFile>, b: seq<ProtoFile>, types: map<string, TypeRecord>)
    ensures EnterAll(a + b, types) == EnterAll(b, EnterAll(a, types))
    decreases |a|
  {
    if a == [] {
      assert a + b == b;
    } else {
      assert (a + b)[0] == a[0] && (a + b)[1..] == a[1..] + b;
      EnterAllAppend(a[1..], b, AddTypes(a[0].Package(), a[0].packageName, a[0].types, types));
    }
  }

  /** The table is made of exactly the files entered, in that order. */
  lemma {:induction false} CollectedEnters(files: seq<ProtoFile>, types: map<string, TypeRecord>)
    ensures Collected(files, types) == EnterAll(Entered(files), types)
    decreases files
  {
    if files != [] {
      var f := files[0];
      var own := AddTypes(f.Package(), f.packageName, f.types, types);
      assert EnterAll([f], types) == own by { assert [f][1..] == []; }
      if f.referring {
        CollectedEnters(f.dependencies, own);
        CollectedEnters(files[1..], Collected(f.dependencies, own));
        EnterAllAppend([f], Entered(f.dependencies), types);
        EnterAllAppend([f] + Entered(f.dependencies), Entered(files[1..]), types);
      }
    }
  }

  /** A file without references has no dependencies. */
  ghost predicate LeavesOk(files: seq<ProtoFile>) {
    forall i :: 0 <= i < |files| ==>
        (!files[i].referring ==> files[i].dependencies == []) && LeavesOk(files[i].dependencies)
  }

  /** In every list of dependencies, all files but the last have references of their own. */
  ghost predicate AllButLastRefer(files: seq<ProtoFile>) {
    && (forall i :: 0 <= i < |files| - 1 ==> files[i].referring)
    && (forall i :: 0 <= i < |files| ==> AllButLastRefer(files[i].dependencies))
  }

  lemma {:induction false} FewerEntered(files: seq<ProtoFile>)
    ensures |Entered(files)| <= |AllFiles(files)|
    decreases files
  {
    if files != [] {
      FewerEntered(files[0].dependencies);
      FewerEntered(files[1..]);
    }
  }

  /** Every file is entered if and only if, in every list of dependencies, all but the last have references of their
      own; otherwise at least one is left out. */
  lemma {:induction false} AllEnteredIff(files: seq<ProtoFile>)
    requires LeavesOk(files)
    ensures AllButLastRefer(files) ==> Entered(files) == AllFiles(files)
    ensures !AllButLastRefer(files) ==> |Entered(files)| < |AllFiles(files)|
    decreases files
  {
    if files != [] {
      var f, rest := files[0], files[1..];
      LeavesTail(files);
      AllEnteredIff(f.dependencies);
      AllEnteredIff(rest);
      FewerEntered(f.dependencies);
      FewerEntered(rest);
      RefersTail(files);
      if !f.referring && rest == [] { assert [f] + [] + [] == [f]; }
    }
  }

  lemma LeavesTail(files: seq<ProtoFile>)
    requires LeavesOk(files) && files != []
    ensures LeavesOk(files[1..]) && LeavesOk(files[0].dependencies)
  {
    assert forall i :: 0 <= i < |files[1..]| ==> files[1..][i] == files[i + 1];
  }

  lemma RefersTail(files: seq<ProtoFile>)
    requires files != []
    ensures AllButLastRefer(files) <==>
            AllButLastRefer(files[0].dependencies) && AllButLastRefer(files[1..]) &&
              (files[0].referring || files[1..] == [])
  {
    var rest := files[1..];
    assert forall i :: 0 <= i < |rest| ==> rest[i] == files[i + 1];
    if AllButLastRefer(files[0].dependencies) && AllButLastRefer(rest) && (files[0].referring || rest == []) {
      forall i | 0 <= i < |files| - 1 ensures files[i].referring { if i > 0 { assert rest[i - 1].referring; } }
      forall i | 0 <= i < |files| ensures AllButLastRefer(files[i].dependencies) {
        if i > 0 { assert AllButLastRefer(rest[i - 1].dependencies); }
      }
    }
    if AllButLastRefer(files) {
      forall i | 0 <= i < |rest| - 1 ensures rest[i].referring { assert files[i + 1].referring; }
      forall i | 0 <= i < |rest| ensures AllButLastRefer(rest[i].dependencies) {
        assert AllButLastRefer(files[i + 1].dependencies);
      }
    }
  }

  // ---------------------------------------------------------------- what is hidden

  /** After a file without references, the remaining dependencies are not entered: they have no influence. */
  lemma {:induction false} LaterDependenciesUnseen(
    files: seq<ProtoFile>, k: nat, more: seq<ProtoFile>, types: map<string, TypeRecord>)
    requires k < |files| && !files[k].referring
    ensures Collected(files[..k + 1] + more, types) == Collected(files[..k + 1], types)
    decreases k
  {
    if k > 0 && files[0].referring {
      var f := files[0];
      var entered := Collected(f.dependencies, AddTypes(f.Package(), f.packageName, f.types, types));
      LaterDependenciesUnseen(files[1..], k - 1, more, entered);
      assert (files[..k + 1] + more)[1..] == files[1..][..k] + more;
      assert files[..k + 1][1..] == files[1..][..k];
    }
  }

  /** The file with the dependencies up to and including the `k`-th, and these after them. */
  function Extended(f: ProtoFile, k: nat, more: seq<ProtoFile>): ProtoFile
    requires k < |f.dependencies|
  {
    f.(dependencies := f.dependencies[..k + 1] + more)
  }

  lemma SameTables(f: ProtoFile, k: nat, more: seq<ProtoFile>, others: seq<ProtoFile>)
    requires f.referring && k < |f.dependencies| && !f.dependencies[k].referring
    ensures Dependencies(Extended(f, k, more)) == Dependencies(Extended(f, k, others))
  {
    LaterDependenciesUnseen(f.dependencies, k, more, map[]);
    LaterDependenciesUnseen(f.dependencies, k, others, map[]);
  }

  /** What follows a dependency without references has no influence on a comparison, on either side. */
  lemma UnseenDependencies(f: ProtoFile, g: ProtoFile, k: nat, l: nat, more: seq<ProtoFile>, others: seq<ProtoFile>,
                           more': seq<ProtoFile>, others': seq<ProtoFile>)
    requires f.referring && k < |f.dependencies| && !f.dependencies[k].referring
    requires g.referring && l < |g.dependencies| && !g.dependencies[l].referring
    ensures CompareFiles(Extended(f, k, more), Extended(g, l, more')) ==
            CompareFiles(Extended(f, k, others), Extended(g, l, others'))
  {
    SameTables(f, k, more, others);
    SameTables(g, l, more', others');
  }

  /** So between two states of a file whose own types are the same, any change in such a dependency goes unnoticed. */
  lemma HiddenChange(f: ProtoFile, k: nat, more: seq<ProtoFile>, others: seq<ProtoFile>)
    requires f.referring && k < |f.dependencies| && !f.dependencies[k].referring && FileOk(f)
    ensures CompareFiles(Extended(f, k, more), Extended(f, k, others)) == []
  {
    var seen := Extended(f, k, []);
    UnseenDependencies(f, f, k, k, more, [], others, []);
    assert forall i :: 0 <= i < |seen.dependencies| ==> seen.dependencies[i] == f.dependencies[i];
    SelfComparisonSilent(seen);
  }

  // ---------------------------------------------------------------- a breaking change that is hidden

  function Plain(kind: ScalarType): FieldElement { FieldElement("n", 1, None, Scalar(kind)) }

  function Message(kind: ScalarType): TypeElement { MessageElement(1, "M", [Plain(kind)], [], []) }

  function Leaf(package: string, types: seq<TypeElement>): ProtoFile {
    ProtoFile(Some(package), Some(PROTO_3), types, false, [])
  }

  /** Uses `d.M`, whose file comes second among its dependencies. */
  function User(kind: ScalarType): ProtoFile {
    ProtoFile(Some("r"), Some(PROTO_3),
              [MessageElement(2, "R", [FieldElement("m", 1, None, Named("d.M"))], [], [])], true,
              [Leaf("c", []), Leaf("d", [Message(kind)])])
  }

  lemma MessageIsBroken()
    ensures MessageBroken(Message(INT32), Message(STRING))
  {
    var a, b := Message(INT32), Message(STRING);
    var fs, gs := [Plain(INT32)], [Plain(STRING)];
    assert fs[..0] == [] && gs[..0] == [];
    assert ByTag(fs) == Empty().Put(1, Plain(INT32)) && ByTag(gs) == Empty().Put(1, Plain(STRING));
    assert !InOneOf(b.oneOfs, 1);
    assert PlainBroken(a, b, 1);
  }

  lemma NameIsProper()
    ensures ProperName("M") && '<' !in "d"
  {
    forall s: ScalarType ensures s.Name() != "M" { NameLong(s); }
  }

  /** The file of `M` compared with its next state is incompatible, as an int32 became a string. */
  lemma LeafIsBroken()
    ensures !AllCompatible(CompareFiles(Leaf("d", [Message(INT32)]), Leaf("d", [Message(STRING)])))
  {
    var selfs, others := [Message(INT32)], [Message(STRING)];
    MessageIsBroken();
    NameIsProper();
    assert selfs[..0] == [] && others[..0] == [];
    assert TypesByName(selfs) == Empty().Put("M", selfs[0]) && TypesByName(others) == Empty().Put("M", others[0]);
    assert NameBroken(selfs, others, 0, "M");
    assert Broken(selfs, others);
    FileVerdict(Leaf("d", selfs), Leaf("d", others));
  }

  lemma UserOk()
    ensures FileOk(User(INT32))
  {
  }

  lemma UserExtended(kind: ScalarType)
    ensures Extended(User(INT32), 0, [Leaf("d", [Message(kind)])]) == User(kind)
  {
    var f, d := User(INT32), Leaf("d", [Message(kind)]);
    assert f.dependencies[..1] + [d] == [Leaf("c", []), d];
  }

  /** A file that uses `M` is compatible with its next state all the same, because the file of `M` comes second among
      its dependencies and the first has no references. */
  lemma BreakCanBeHidden()
    ensures !AllCompatible(CompareFiles(User(INT32).dependencies[1], User(STRING).dependencies[1]))
    ensures CompareFiles(User(INT32), User(STRING)) == []
  {
    LeafIsBroken();
    UserOk();
    UserExtended(INT32);
    UserExtended(STRING);
    HiddenChange(User(INT32), 0, [Leaf("d", [Message(INT32)])], [Leaf("d", [Message(STRING)])]);
  }

  // ---------------------------------------------------------------- the same change, seen

  function Root(): TypeElement { MessageElement(2, "R", [FieldElement("m", 1, None, Named("d.M"))], [], []) }

  /** The same file with the file of `M` as its only dependency. */
  function Direct(kind: ScalarType): ProtoFile {
    ProtoFile(Some("r"), Some(PROTO_3), [Root()], true, [Leaf("d", [Message(kind)])])
  }

  function DirectTable(kind: ScalarType): map<string, TypeRecord> {
    map["d.M" := TypeRecord(Some("d"), Message(kind)), "r.R" := TypeRecord(Some("r"), Root())]
  }

  lemma DirectTables(a: ScalarType, b: ScalarType)
    ensures DirectView(ViewOf(Direct(a), Direct(b)), a, b)
  {
    EnteredTable(a);
    EnteredTable(b);
    var f := Direct(a);
    assert AllIdents(f.types) == Idents(f.types[0]) + AllIdents(f.types[1..]);
    assert 1 in TableIdents(Dependencies(f)) by {
      assert "d.M" in Dependencies(f) && 1 in Idents(Dependencies(f)["d.M"].element);
    }
  }

  lemma EnteredTable(kind: ScalarType)
    ensures Dependencies(Direct(kind)) == map["d.M" := TypeRecord(Some("d"), Message(kind))]
    ensures AddTypes("r", Some("r"), Direct(kind).types, Dependencies(Direct(kind))) == DirectTable(kind)
  {
    var leaf := Leaf("d", [Message(kind)]);
    var own: map<string, TypeRecord> := map[];
    assert "d" + "." + "M" == "d.M" && "r" + "." + "R" == "r.R";
    assert AddType("d", Some("d"), Message(kind), own) == map["d.M" := TypeRecord(Some("d"), Message(kind))];
    assert leaf.types[1..] == [] && Direct(kind).types[1..] == [];
    assert AddTypes("d", Some("d"), leaf.types, own) == map["d.M" := TypeRecord(Some("d"), Message(kind))];
    assert Collected([leaf], own) == AddTypes("d", Some("d"), leaf.types, own);
  }

  lemma LookedUp(kind: ScalarType)
    ensures ComputeName("d.M", [], "r", DirectTable(kind)) == Some("d.M")
    ensures Unambiguous("r", DirectTable(kind), "d.M")
  {
    var types := DirectTable(kind);
    assert Dotted(["r"]) == "r" && |"r" + "." + "d.M"| == 5;
    assert "r" + "." + "d.M" !in types;
    assert ["r"] + [] == ["r"] && ["r"][..0] == [];
    assert InScope([], "d.M", types) == Some("d.M");
    assert InScope(["r"], "d.M", types) == Some("d.M");
    assert forall k :: k in types ==> |k| == 3;
  }

  /** The tables of the comparison of two such files. */
  ghost predicate DirectView(v: View, a: ScalarType, b: ScalarType) {
    && v.selfPackage == "r" && v.otherPackage == "r" && {1, 2} <= v.idents
    && v.selfTypes == DirectTable(a) && v.otherTypes == DirectTable(b)
  }

  lemma DirectUses(v: View, a: ScalarType, b: ScalarType)
    requires DirectView(v, a, b)
    ensures Uses(SelfNames(v), Root()) && Uses(OtherNames(v), Root())
    ensures Uses(SelfNames(v), Message(a)) && Uses(OtherNames(v), Message(b))
  {
    LookedUp(a);
    LookedUp(b);
  }

  lemma DirectSound(v: View, a: ScalarType, b: ScalarType)
    requires DirectView(v, a, b)
    ensures Sound(v)
  {
    DirectUses(v, a, b);
    DirectProper(a);
    DirectProper(b);
    TableOk(SelfNames(v), v.idents, a);
    TableOk(OtherNames(v), v.idents, b);
  }

  lemma TableOk(ns: Names, idents: set<int>, kind: ScalarType)
    requires Uses(ns, Root()) && Uses(ns, Message(kind)) && {1, 2} <= idents
    ensures TableDeclared(ns, DirectTable(kind)) && TableKnown(idents, DirectTable(kind))
  {
  }

  lemma RootDeclared(ns: Names)
    requires Uses(ns, Root())
    ensures Declared(ns, [Root()])
  {
  }

  lemma DirectPlainly(a: ScalarType, b: ScalarType)
    ensures Plainly(Direct(a), Direct(b))
  {
    var v := ViewOf(Direct(a), Direct(b));
    DirectTables(a, b);
    DirectSound(v, a, b);
    DirectUses(v, a, b);
    RootDeclared(SelfNames(v));
    RootDeclared(OtherNames(v));
    assert Direct(a).types == [Root()] && Direct(b).types == [Root()];
  }

  lemma RootKin(a: ScalarType, b: ScalarType)
    ensures Kin(Direct(a), Direct(b), "R", Pair(Root(), Root()))
  {
    var types := [Root()];
    assert types[..0] == [] && TypesByName(types) == Empty().Put("R", Root());
    assert Direct(a).types == types && Direct(b).types == types;
  }

  lemma DirectProper(kind: ScalarType)
    ensures TableProper(DirectTable(kind))
  {
    KeysOk();
    MessageIsProper(kind);
    RootIsProper();
  }

  lemma KeysOk()
    ensures KeyOk("d.M") && KeyOk("r.R")
  {
    NameIsProper();
    RootIsProper();
    LastOfDotted("d", "M");
    LastOfDotted("r", "R");
    assert "d" + "." + "M" == "d.M" && "r" + "." + "R" == "r.R";
  }

  lemma MessageIsProper(kind: ScalarType)
    ensures Proper(Message(kind))
  {
    NameIsProper();
  }

  lemma RootIsProper()
    ensures Proper(Root())
  {
    forall s: ScalarType ensures s.Name() != "R" { NameLong(s); }
  }

  lemma RootLinked(v: View)
    requires DirectView(v, INT32, STRING)
    ensures Link(v, Root(), Root(), Message(INT32), Message(STRING))
  {
    var f := Root().fields[0];
    LookedUp(INT32);
    LookedUp(STRING);
    OnlyField(f);
    assert PlainPair(Root(), Root(), f, f, 1);
    assert ShortName("d.M", v.selfTypes["d.M"]) == ShortName("d.M", v.otherTypes["d.M"]);
    assert TypeLink(v, f.elementType, f.elementType, Message(INT32), Message(STRING));
    assert Compared(Root(), Root(), f, f);
  }

  lemma ScalarsNoEnums(v: View, s: ScalarType)
    requires Sound(v)
    ensures !SelfEnum(v, Scalar(s)) && !OtherEnum(v, Scalar(s))
  {
    ScalarIdentifier(s);
    NotInScope((if v.selfPackage != "" then [v.selfPackage] else []) + [], s.Name(), v.selfTypes);
    NotInScope((if v.otherPackage != "" then [v.otherPackage] else []) + [], s.Name(), v.otherTypes);
  }

  lemma MessageLocal(v: View)
    requires Sound(v)
    ensures Local(v, Message(INT32), Message(STRING))
  {
    var m, m', f, g := Message(INT32), Message(STRING), Plain(INT32), Plain(STRING);
    OnlyField(f);
    OnlyField(g);
    assert PlainPair(m, m', f, g, 1);
    ScalarsNoEnums(v, INT32);
    ScalarsNoEnums(v, STRING);
    assert Compared(m, m', f, g) && FieldLocal(v, f, g);
  }

  lemma DirectChain(v: View)
    requires DirectView(v, INT32, STRING)
    ensures Chained(v, {}, [Pair(Root(), Root()), Pair(Message(INT32), Message(STRING))])
  {
    var chain := [Pair(Root(), Root()), Pair(Message(INT32), Message(STRING))];
    RootLinked(v);
    DirectSound(v, INT32, STRING);
    MessageLocal(v);
    assert chain[1..] == [Pair(Message(INT32), Message(STRING))];
    assert Chained(v, {2}, chain[1..]);
    assert {} + {2} == {2};
  }

  /** There the comparison goes from the file to `M` and finds that an int32 became a string. */
  lemma BreakIsSeen()
    ensures !AllCompatible(CompareFiles(Direct(INT32), Direct(STRING)))
  {
    var f, g := Direct(INT32), Direct(STRING);
    DirectPlainly(INT32, STRING);
    DirectTables(INT32, STRING);
    DirectChain(ViewOf(f, g));
    RootKin(INT32, STRING);
    assert BrokenChain(f, g, "R", [Pair(Root(), Root()), Pair(Message(INT32), Message(STRING))]);
    IncompatibleIff(f, g);
  }

  // ---------------------------------------------------------------- a file that differs from itself

  /** Number 1 is both a plain field and a member of a one-of. */
  function Shared(): ProtoFile {
    ProtoFile(None, None, [MessageElement(1, "M", [Plain(INT32)], [OneOfElement("o", [Plain(INT32)])], [])], false, [])
  }

  lemma FileCanDifferFromItself()
    ensures CompareFiles(Shared(), Shared()) != []
  {
    var m := Shared().types[0];
    assert HasTag(m.oneOfs[0].fields, 1) by { assert m.oneOfs[0].fields[0].tag == 1; }
    assert InOneOf(m.oneOfs, m.fields[0].tag);
    assert !Separate(m);
    SelfComparisonSilentIff(Shared());
  }
}
