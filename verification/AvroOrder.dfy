/** The order in which the registry's own dependencies are merged: when it puts referenced schemas first, and a run
    after which it does not. */
module AvroOrder {
  import opened SchemaModels
  import opened Database
  import opened SchemaReader
  import opened SchemaRegistry
  import opened References
  import opened RegistryTheorems
  import opened RegistryScenarios
  import opened FailingRuns
  import opened AvroResolve

  // ---------------------------------------------------------------- resolved trees

  /** The dependencies are what the references resolve to. */
  ghost predicate Resolved(db: Db, d: Dependency) {
    exists depth: nat :: ResolveAll(db, d.schema.references, depth) == Some(d.dependencies)
  }

  lemma {:induction false} PutByNameFrom(deps: seq<Dependency>, d: Dependency, x: Dependency)
    requires x in PutByName(deps, d)
    ensures x in deps || x == d
  {
    if deps != [] && deps[0].ref.name != d.ref.name && x != deps[0] { PutByNameFrom(deps[1..], d, x); }
  }

  lemma {:induction false} ElementResolved(db: Db, refs: seq<Reference>, depth: nat, d: Dependency)
    requires ResolveAll(db, refs, depth).Some? && d in ResolveAll(db, refs, depth).value
    ensures Resolved(db, d)
    decreases |refs|
  {
    var init, last := refs[..|refs| - 1], refs[|refs| - 1];
    var deps, one := ResolveAll(db, init, depth).value, SchemaReader.Resolve(db, last, depth).value;
    PutByNameFrom(deps, one, d);
    if d in deps {
      ElementResolved(db, init, depth, d);
    } else {
      assert ResolveAll(db, one.schema.references, depth - 1) == Some(one.dependencies);
    }
  }

  lemma {:induction false} BelowResolved(db: Db, root: Dependency, d: Dependency)
    requires Resolved(db, root) && Below(root, d)
    ensures Resolved(db, d)
    decreases root
  {
    if d != root {
      var i :| 0 <= i < |root.dependencies| && Below(root.dependencies[i], d);
      var depth: nat :| ResolveAll(db, root.schema.references, depth) == Some(root.dependencies);
      ElementResolved(db, root.schema.references, depth, root.dependencies[i]);
      BelowResolved(db, root.dependencies[i], d);
    }
  }

  /** Equal references have equal dependencies, however deep they were looked for. */
  lemma SameReferencesSameDependencies(db: Db, d: Dependency, e: Dependency)
    requires Resolved(db, d) && Resolved(db, e) && d.schema.references == e.schema.references
    ensures d.dependencies == e.dependencies
  {
    var m: nat :| ResolveAll(db, d.schema.references, m) == Some(d.dependencies);
    var n: nat :| ResolveAll(db, e.schema.references, n) == Some(e.dependencies);
    if m <= n {
      ResolveAllDeeper(db, d.schema.references, m, n);
    } else {
      ResolveAllDeeper(db, d.schema.references, n, m);
    }
  }

  /** No two schemas of the tree share a text and differ in their references. */
  ghost predicate TextsFixReferences(root: Dependency) {
    forall d, e :: Below(root, d) && Below(root, e) && d.schema.text == e.schema.text ==>
        d.schema.references == e.schema.references
  }

  /** For every schema with the dependencies its references resolve to, in any database: if no two schemas it leads to
      share a text and differ in their references, all referenced schemas are merged before their referrers. */
  lemma ResolvedSchemasFirst(db: Db, root: Dependency)
    requires Resolved(db, root) && TextsFixReferences(root)
    ensures DependenciesFirst(root, Dedup(PostOrder(root)))
  {
    forall d, e | Below(root, d) && Below(root, e) && d.schema.text == e.schema.text
      ensures d.dependencies == e.dependencies
    {
      BelowResolved(db, root, d);
      BelowResolved(db, root, e);
      SameReferencesSameDependencies(db, d, e);
    }
    ReferencedSchemasFirst(root);
  }

  // ---------------------------------------------------------------- a run

  /** Three subjects and two texts: `a` is registered in `x` without references, and in `y` with a reference to the
      schema of `b`, which it need not use. */
  datatype Cast = Cast(b: Subject, x: Subject, y: Subject, textA: string, textB: string, textR: string) {
    predicate Ok() { b != x && b != y && x != y && textA != textB }

    function ToB(): Reference { Reference("b", b, 1) }

    function ToX(): Reference { Reference("x", x, 1) }

    function ToY(): Reference { Reference("y", y, 1) }

    function Base(): TypedSchema { TypedSchema(Avro, textB, []) }

    function Bare(): TypedSchema { TypedSchema(Avro, textA, []) }

    function Needy(): TypedSchema { TypedSchema(Avro, textA, [ToB()]) }

    function Requests(): seq<Request> { [] + [Register(b, Base())] + [Register(x, Bare())] + [Register(y, Needy())] }

    function Scene2(): Scene { First(b, Base()).Then(Register(x, Bare()), x, 1, 2, Bare(), false) }

    function Scene3(): Scene { Scene2().Then(Register(y, Needy()), y, 1, 3, Needy(), false) }

    function BaseTree(): Dependency { Dependency(ToB(), Base(), []) }

    function BareTree(): Dependency { Dependency(ToX(), Bare(), []) }

    function NeedyTree(): Dependency { Dependency(ToY(), Needy(), [BaseTree()]) }

    /** A schema that references both, with what its references resolve to. */
    function Tree(): Dependency {
      Dependency(Reference("r", "r", 1), TypedSchema(Avro, textR, [ToX(), ToY()]), [BareTree(), NeedyTree()])
    }
  }

  lemma Scene2Shown(canRead: CanRead, mode: Mode, c: Cast)
    requires c.Ok()
    ensures Shows(canRead, mode, c.Scene2())
  {
    var one := First(c.b, c.Base());
    FirstShown(canRead, mode, c.b, c.Base());
    AcceptedWithoutReferences(Replay(one.log), SchemaRecord(c.x, 1, 2, c.Bare(), false));
    assert one.ids == map[1 := c.Base()] && one.counter == 1 && one.versions.Keys == {(c.b, 1)};
    RegisterShows(canRead, mode, one, c.x, c.Bare(), 1, 2);
  }

  lemma BaseResolved(db: Db, c: Cast, depth: nat)
    requires db.Live(c.b, 1) && db.At(c.b, 1).schema == c.Base() && depth >= 1
    ensures ResolveAll(db, [c.ToB()], depth) == Some([c.BaseTree()])
  {
    var refs := [c.ToB()];
    assert ResolveAll(db, [], depth - 1) == Some([]) && ResolveAll(db, [], depth) == Some([]);
    assert SchemaReader.Resolve(db, c.ToB(), depth) == Some(c.BaseTree());
    assert refs[..0] == [];
    assert PutByName([], c.BaseTree()) == [c.BaseTree()];
  }

  lemma NeedyAccepted(db: Db, c: Cast)
    requires db.Live(c.b, 1) && db.At(c.b, 1).schema == c.Base()
    ensures Accepted(db, SchemaRecord(c.y, 1, 3, c.Needy(), false))
  {
    BaseResolved(db, c, 1);
  }

  lemma SceneHas(canRead: CanRead, mode: Mode, scene: Scene, s: Subject, id: int, schema: TypedSchema)
    requires Shows(canRead, mode, scene) && (s, 1) in scene.versions &&
             scene.versions[(s, 1)] == SchemaVersion(1, false, id, schema)
    ensures Replay(scene.log).Live(s, 1) && Replay(scene.log).At(s, 1).schema == schema
  {
    assert Replay(scene.log).Stored(s, 1);
  }

  lemma Scene3Shown(canRead: CanRead, mode: Mode, c: Cast)
    requires c.Ok()
    ensures Shows(canRead, mode, c.Scene3())
  {
    var two := c.Scene2();
    Scene2Shown(canRead, mode, c);
    SceneHas(canRead, mode, two, c.b, 1, c.Base());
    NeedyAccepted(Replay(two.log), c);
    assert two.ids == map[1 := c.Base(), 2 := c.Bare()] && two.counter == 2 &&
           two.versions.Keys == {(c.b, 1), (c.x, 1)};
    RegisterShows(canRead, mode, two, c.y, c.Needy(), 1, 3);
  }

  lemma TreeResolved(db: Db, c: Cast)
    requires db.Live(c.b, 1) && db.At(c.b, 1).schema == c.Base() && db.Live(c.x, 1) && db.At(c.x, 1).schema == c.Bare()
    requires db.Live(c.y, 1) && db.At(c.y, 1).schema == c.Needy()
    ensures Resolved(db, c.Tree())
  {
    var refs, x, y := [c.ToX(), c.ToY()], c.BareTree(), c.NeedyTree();
    BaseResolved(db, c, 1);
    assert ResolveAll(db, [], 1) == Some([]) && ResolveAll(db, [], 2) == Some([]);
    assert SchemaReader.Resolve(db, c.ToX(), 2) == Some(x) && SchemaReader.Resolve(db, c.ToY(), 2) == Some(y);
    assert refs[..1] == [c.ToX()] && [c.ToX()][..0] == [];
    assert PutByName([], x) == [x] && PutByName([], y) == [y] && [x][1..] == [];
    assert ResolveAll(db, [c.ToX()], 2) == Some([x]);
    assert PutByName([x], y) == [x] + [y];
    assert refs[..|refs| - 1] == [c.ToX()] && refs[|refs| - 1] == c.ToY() && [x] + [y] == [x, y];
    assert ResolveAll(db, refs, 2) == Some(PutByName([x], y));
  }

  lemma TreeFails(c: Cast)
    requires c.Ok()
    ensures !DependenciesFirst(c.Tree(), Dedup(PostOrder(c.Tree())))
  {
    assert c.Tree().dependencies == [c.BareTree(), c.NeedyTree()] + [];
    assert c.BaseTree() in c.NeedyTree().dependencies;
    SameTextFails(c.Tree(), [], c.BareTree(), c.NeedyTree(), c.BaseTree());
  }

  /** After three registrations the dependencies of a schema that references both versions of `a` are merged with `a`
      before the schema that the second of them depends on. */
  lemma OrderCanFail(canRead: CanRead, mode: Mode, c: Cast)
    requires c.Ok()
    ensures var db := Run(canRead, mode, c.Requests()).st.db;
            Resolved(db, c.Tree()) && !DependenciesFirst(c.Tree(), Dedup(PostOrder(c.Tree())))
  {
    var three := c.Scene3();
    Scene3Shown(canRead, mode, c);
    RunIsReplay(canRead, mode, three.requests, three.log, three.counter);
    SceneHas(canRead, mode, three, c.b, 1, c.Base());
    SceneHas(canRead, mode, three, c.x, 2, c.Bare());
    SceneHas(canRead, mode, three, c.y, 3, c.Needy());
    TreeResolved(Replay(three.log), c);
    TreeFails(c);
  }
}
