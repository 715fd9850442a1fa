/** The order in which an Avro schema and its dependencies are merged (`avro_resolve`, schema_models.py). */
module AvroResolve {
  import opened SchemaReader

  // ---------------------------------------------------------------- the reference: recursive post-order

  function PostOrder(d: Dependency): seq<string>
    decreases d, 1
  {
    PostOrderAll(d.dependencies) + [d.schema.text]
  }

  function PostOrderAll(ds: seq<Dependency>): seq<string>
    decreases ds, 0
  {
    if ds == [] then [] else PostOrder(ds[0]) + PostOrderAll(ds[1..])
  }

  /** Keeps the first occurrence of each element. */
  function Dedup(s: seq<string>): seq<string> {
    if s == [] then []
    else
      var init, last := s[..|s| - 1], s[|s| - 1];
      Dedup(init) + if last in init then [] else [last]
  }

  /** Nothing missing, nothing twice. */
  lemma {:induction false} DedupSpec(s: seq<string>)
    ensures forall x :: x in Dedup(s) <==> x in s
    ensures forall i, j :: 0 <= i < j < |Dedup(s)| ==> Dedup(s)[i] != Dedup(s)[j]
  {
    if s != [] {
      var init, last := s[..|s| - 1], s[|s| - 1];
      DedupSpec(init);
      assert s == init + [last];
      assert forall i :: 0 <= i < |Dedup(init)| ==> Dedup(init)[i] in init;
    }
  }

  // ---------------------------------------------------------------- the loop

  /** A stack entry: a schema, and the dependencies it still has to follow. */
  type Entry = (string, seq<Dependency>)

  /** What popping the whole stack will emit; the top is the last element. */
  ghost function Pending(stack: seq<Entry>): seq<string> {
    if stack == [] then []
    else
      var top := stack[|stack| - 1];
      PostOrderAll(top.1) + [top.0] + Pending(stack[..|stack| - 1])
  }

  /** How many pops a list of dependencies, or a stack, still takes. */
  ghost function Pops(ds: seq<Dependency>): nat
    decreases ds, 0
  {
    if ds == [] then 0 else PopsOf(ds[0].dependencies) + Pops(ds[1..])
  }

  ghost function PopsOf(ds: seq<Dependency>): nat
    decreases ds, 1
  {
    if ds == [] then 1 else 2 + Pops(ds)
  }

  ghost function StackPops(stack: seq<Entry>): nat {
    if stack == [] then 0 else PopsOf(stack[|stack| - 1].1) + StackPops(stack[..|stack| - 1])
  }

  lemma StackSnoc(stack: seq<Entry>, e: Entry)
    ensures Pending(stack + [e]) == PostOrderAll(e.1) + [e.0] + Pending(stack)
    ensures StackPops(stack + [e]) == PopsOf(e.1) + StackPops(stack)
  {
    assert (stack + [e])[..|stack|] == stack;
  }

  /** `for dependency in reversed(...)`: the first dependency ends up on top. */
  method PushReversed(below: seq<Entry>, ds: seq<Dependency>) returns (stack: seq<Entry>)
    ensures Pending(stack) == PostOrderAll(ds) + Pending(below)
    ensures StackPops(stack) == Pops(ds) + StackPops(below)
  {
    stack := below;
    var i := |ds|;
    while i > 0
      invariant 0 <= i <= |ds|
      invariant Pending(stack) == PostOrderAll(ds[i..]) + Pending(below)
      invariant StackPops(stack) == Pops(ds[i..]) + StackPops(below)
    {
      i := i - 1;
      StackSnoc(stack, (ds[i].schema.text, ds[i].dependencies));
      assert ds[i..][1..] == ds[i + 1..];
      stack := stack + [(ds[i].schema.text, ds[i].dependencies)];
    }
    assert ds[0..] == ds;
  }

  /** A top without dependencies left is what comes next. */
  lemma {:induction false} EmitTop(emitted: seq<string>, stack: seq<Entry>)
    requires stack != [] && stack[|stack| - 1].1 == []
    ensures emitted + Pending(stack) == (emitted + [stack[|stack| - 1].0]) + Pending(stack[..|stack| - 1])
    ensures StackPops(stack[..|stack| - 1]) < StackPops(stack)
  {
    assert Pending(stack) == [stack[|stack| - 1].0] + Pending(stack[..|stack| - 1]);
  }

  /** A top with dependencies comes after all of them. */
  lemma {:induction false} FollowTop(stack: seq<Entry>)
    requires stack != [] && stack[|stack| - 1].1 != []
    ensures var top, ds, rest := stack[|stack| - 1].0, stack[|stack| - 1].1, stack[..|stack| - 1];
            && Pending(stack) == PostOrderAll(ds) + Pending(rest + [(top, [])])
            && Pops(ds) + StackPops(rest + [(top, [])]) < StackPops(stack)
  {
    var top, ds, rest := stack[|stack| - 1].0, stack[|stack| - 1].1, stack[..|stack| - 1];
    StackSnoc(rest, (top, []));
    assert Pending(rest + [(top, [])]) == [top] + Pending(rest);
    assert Pending(stack) == PostOrderAll(ds) + ([top] + Pending(rest));
  }

  lemma DedupSnoc(s: seq<string>, x: string)
    ensures Dedup(s + [x]) == Dedup(s) + if x in s then [] else [x]
  {
    assert (s + [x])[..|s|] == s;
  }

  /** Ends on every dependency tree, with the first-occurrence deduplication of its post-order. */
  method Resolve(text: string, dependencies: seq<Dependency>) returns (merge: seq<string>)
    ensures merge == Dedup(PostOrderAll(dependencies) + [text])
  {
    ghost var all := PostOrderAll(dependencies) + [text];
    var stack: seq<Entry> := [(text, dependencies)];
    merge := [];
    var seen: set<string> := {};
    ghost var emitted: seq<string> := [];
    StackSnoc([], (text, dependencies));
    assert stack == [] + [(text, dependencies)];
    while stack != []
      invariant emitted + Pending(stack) == all
      invariant merge == Dedup(emitted)
      invariant forall x :: x in seen <==> x in emitted
      decreases StackPops(stack)
    {
      var top, ds := stack[|stack| - 1].0, stack[|stack| - 1].1;
      var rest := stack[..|stack| - 1];
      if ds != [] {
        FollowTop(stack);
        stack := PushReversed(rest + [(top, [])], ds);
      } else {
        DedupSnoc(emitted, top);
        EmitTop(emitted, stack);
        stack := rest;
        if top !in seen {
          seen := seen + {top};
          merge := merge + [top];
        }
        emitted := emitted + [top];
      }
    }
    assert emitted + [] == emitted;
  }

  /** Dependencies are visited in the order they are listed in. */
  lemma {:induction false} VisitedInOrder(a: seq<Dependency>, b: seq<Dependency>)
    ensures PostOrderAll(a + b) == PostOrderAll(a) + PostOrderAll(b)
    decreases |a|
  {
    if a == [] {
      assert a + b == b;
    } else {
      var x, y, z := PostOrder(a[0]), PostOrderAll(a[1..]), PostOrderAll(b);
      VisitedInOrder(a[1..], b);
      assert (a + b)[0] == a[0] && (a + b)[1..] == a[1..] + b;
      assert PostOrderAll(a + b) == x + (y + z);
      assert x + (y + z) == (x + y) + z;
    }
  }

  // ---------------------------------------------------------------- dependencies before referrers

  /** `d` or something below it. */
  ghost predicate Below(root: Dependency, d: Dependency) {
    d == root || exists i :: 0 <= i < |root.dependencies| && Below(root.dependencies[i], d)
  }

  /** Wherever `order` names a schema, it has named the schemas that one depends on before. */
  ghost predicate DependenciesFirst(root: Dependency, order: seq<string>) {
    forall d, c, i :: Below(root, d) && c in d.dependencies && 0 <= i < |order| && order[i] == d.schema.text ==>
      c.schema.text in order[..i]
  }

  /** The same, asked of the place where a schema first occurs. */
  ghost predicate DependenciesFirstMet(root: Dependency, order: seq<string>) {
    forall d, c, i :: Below(root, d) && c in d.dependencies && FirstAt(order, i, d.schema.text) ==>
      c.schema.text in order[..i]
  }

  ghost predicate FirstAt(order: seq<string>, i: int, x: string) {
    0 <= i < |order| && order[i] == x && x !in order[..i]
  }

  /** The k-th distinct element first occurs after exactly the elements that precede it in the deduplication. */
  lemma {:induction false} DedupOrigin(s: seq<string>, k: nat) returns (p: nat)
    requires k < |Dedup(s)|
    ensures FirstAt(s, p, Dedup(s)[k]) && Dedup(s)[..k] == Dedup(s[..p])
  {
    var init, last := s[..|s| - 1], s[|s| - 1];
    if k < |Dedup(init)| {
      p := DedupOrigin(init, k);
      assert Dedup(s)[..k] == Dedup(init)[..k] && init[..p] == s[..p];
    } else {
      p := |s| - 1;
      assert Dedup(s)[..k] == Dedup(init);
    }
  }

  lemma {:induction false} DedupPlace(s: seq<string>, p: nat) returns (k: nat)
    requires p < |s| && s[p] !in s[..p]
    ensures k < |Dedup(s)| && Dedup(s)[k] == s[p] && Dedup(s)[..k] == Dedup(s[..p])
  {
    var init := s[..|s| - 1];
    if p < |s| - 1 {
      assert init[..p] == s[..p];
      k := DedupPlace(init, p);
      assert Dedup(s)[..k] == Dedup(init)[..k];
    } else {
      k := |Dedup(init)|;
      assert Dedup(s)[..k] == Dedup(init);
    }
  }

  /** The merged list names dependencies before referrers exactly when the post-order first meets them so. */
  lemma MergedOrderIff(root: Dependency)
    ensures DependenciesFirst(root, Dedup(PostOrder(root))) <==> DependenciesFirstMet(root, PostOrder(root))
  {
    var s := PostOrder(root);
    if DependenciesFirstMet(root, s) {
      forall d, c, k | Below(root, d) && c in d.dependencies && 0 <= k < |Dedup(s)| && Dedup(s)[k] == d.schema.text
        ensures c.schema.text in Dedup(s)[..k]
      {
        var p := DedupOrigin(s, k);
        DedupSpec(s[..p]);
      }
    } else {
      var d, c, p :| Below(root, d) && c in d.dependencies && FirstAt(s, p, d.schema.text) && c.schema.text !in s[..p];
      var k := DedupPlace(s, p);
      DedupSpec(s[..p]);
    }
  }

  /** Schemas with one text have one list of dependencies. */
  ghost predicate Consistent(root: Dependency) {
    forall d, e :: Below(root, d) && Below(root, e) && d.schema.text == e.schema.text ==>
        d.dependencies == e.dependencies
  }

  /** Every place of the post-order belongs to a schema whose dependencies come before it. */
  lemma {:induction false} OccurrenceHasNode(root: Dependency, p: nat) returns (d: Dependency)
    requires p < |PostOrder(root)|
    ensures Below(root, d) && d.schema.text == PostOrder(root)[p]
    ensures forall c :: c in d.dependencies ==> c.schema.text in PostOrder(root)[..p]
    decreases root, 1
  {
    var ds, all := root.dependencies, PostOrderAll(root.dependencies);
    if p < |all| {
      var i;
      i, d := OccurrenceInAll(ds, p);
      assert Below(root.dependencies[i], d);
      assert PostOrder(root)[..p] == all[..p];
    } else {
      d := root;
      assert PostOrder(root)[..p] == all;
      forall c | c in ds ensures c.schema.text in all { TextInAll(ds, c); }
    }
  }

  lemma {:induction false} OccurrenceInAll(ds: seq<Dependency>, p: nat) returns (i: nat, d: Dependency)
    requires p < |PostOrderAll(ds)|
    ensures i < |ds| && Below(ds[i], d) && d.schema.text == PostOrderAll(ds)[p]
    ensures forall c :: c in d.dependencies ==> c.schema.text in PostOrderAll(ds)[..p]
    decreases ds, 0
  {
    var first := PostOrder(ds[0]);
    if p < |first| {
      i := 0;
      d := OccurrenceHasNode(ds[0], p);
      assert PostOrderAll(ds)[..p] == first[..p];
    } else {
      i, d := OccurrenceInAll(ds[1..], p - |first|);
      i := i + 1;
      assert PostOrderAll(ds)[..p] == first + PostOrderAll(ds[1..])[..p - |first|];
    }
  }

  lemma {:induction false} TextInAll(ds: seq<Dependency>, c: Dependency)
    requires c in ds
    ensures c.schema.text in PostOrderAll(ds)
  {
    if ds[0] == c {
      assert PostOrder(c)[|PostOrder(c)| - 1] == c.schema.text;
    } else {
      TextInAll(ds[1..], c);
    }
  }

  /** For consistent dependencies every referenced schema comes before its referrers. */
  lemma ReferencedSchemasFirst(root: Dependency)
    requires Consistent(root)
    ensures DependenciesFirst(root, Dedup(PostOrder(root)))
  {
    var s := PostOrder(root);
    forall d, c, p | Below(root, d) && c in d.dependencies && FirstAt(s, p, d.schema.text)
      ensures c.schema.text in s[..p]
    {
      var e := OccurrenceHasNode(root, p);
    }
    MergedOrderIff(root);
  }

  // ---------------------------------------------------------------- exactly when

  /** The first schema with this text that a visit of the tree, dependencies before referrers, comes to. */
  function FirstWith(root: Dependency, text: string): Dependency
    decreases root, 1
  {
    if text in PostOrderAll(root.dependencies) then FirstAmong(root.dependencies, text) else root
  }

  function FirstAmong(ds: seq<Dependency>, text: string): Dependency
    requires text in PostOrderAll(ds)
    decreases ds, 0
  {
    if text in PostOrder(ds[0]) then FirstWith(ds[0], text) else FirstAmong(ds[1..], text)
  }

  /** The texts visited before that schema and what it leads to. */
  function Earlier(root: Dependency, text: string): seq<string>
    decreases root, 1
  {
    if text in PostOrderAll(root.dependencies) then EarlierAmong(root.dependencies, text) else []
  }

  function EarlierAmong(ds: seq<Dependency>, text: string): seq<string>
    requires text in PostOrderAll(ds)
    decreases ds, 0
  {
    if text in PostOrder(ds[0]) then Earlier(ds[0], text) else PostOrder(ds[0]) + EarlierAmong(ds[1..], text)
  }

  /** The first place of a text in the post-order comes right after those. */
  lemma {:induction false} FirstWithPlace(root: Dependency, text: string) returns (p: nat)
    requires text in PostOrder(root)
    ensures FirstAt(PostOrder(root), p, text)
    ensures PostOrder(root)[..p] == Earlier(root, text) + PostOrderAll(FirstWith(root, text).dependencies)
    decreases root, 1
  {
    var all := PostOrderAll(root.dependencies);
    if text in all {
      p := FirstAmongPlace(root.dependencies, text);
      assert PostOrder(root)[..p] == all[..p];
    } else {
      p := |all|;
      assert PostOrder(root)[..p] == all;
      assert PostOrder(root)[p] == root.schema.text;
    }
  }

  lemma {:induction false} FirstAmongPlace(ds: seq<Dependency>, text: string) returns (p: nat)
    requires text in PostOrderAll(ds)
    ensures FirstAt(PostOrderAll(ds), p, text)
    ensures PostOrderAll(ds)[..p] == EarlierAmong(ds, text) + PostOrderAll(FirstAmong(ds, text).dependencies)
    decreases ds, 0
  {
    var first, rest := PostOrder(ds[0]), PostOrderAll(ds[1..]);
    assert PostOrderAll(ds) == first + rest;
    if text in first {
      p := FirstWithPlace(ds[0], text);
      assert PostOrderAll(ds)[..p] == first[..p];
    } else {
      p := FirstAmongPlace(ds[1..], text);
      p := p + |first|;
      assert PostOrderAll(ds)[..p] == first + rest[..p - |first|];
    }
  }

  /** Whatever a schema needs, the first schema with its text leads to as well, or it is visited before that one. */
  ghost predicate Provided(root: Dependency) {
    forall d, c :: Below(root, d) && c in d.dependencies ==>
      || c.schema.text in PostOrderAll(FirstWith(root, d.schema.text).dependencies)
      || c.schema.text in Earlier(root, d.schema.text)
  }

  lemma {:induction false} BelowVisited(root: Dependency, d: Dependency)
    requires Below(root, d)
    ensures d.schema.text in PostOrder(root)
    decreases root
  {
    if d == root {
      assert PostOrder(root)[|PostOrder(root)| - 1] == root.schema.text;
    } else {
      var i :| 0 <= i < |root.dependencies| && Below(root.dependencies[i], d);
      BelowVisited(root.dependencies[i], d);
      InAll(root.dependencies, i, d.schema.text);
    }
  }

  lemma {:induction false} InAll(ds: seq<Dependency>, i: nat, text: string)
    requires i < |ds| && text in PostOrder(ds[i])
    ensures text in PostOrderAll(ds)
  {
    if i > 0 { InAll(ds[1..], i - 1, text); }
  }

  /** For every tree: referenced schemas are merged before their referrers if and only if whatever a schema needs is
      provided where its text is first met. */
  lemma ReferencedFirstIff(root: Dependency)
    ensures DependenciesFirst(root, Dedup(PostOrder(root))) <==> Provided(root)
  {
    var s := PostOrder(root);
    MergedOrderIff(root);
    forall d, c | Below(root, d) && c in d.dependencies
      ensures (exists i :: FirstAt(s, i, d.schema.text) && c.schema.text in s[..i]) <==>
              c.schema.text in PostOrderAll(FirstWith(root, d.schema.text).dependencies) ||
                c.schema.text in Earlier(root, d.schema.text)
      ensures exists i :: FirstAt(s, i, d.schema.text)
    {
      BelowVisited(root, d);
      var p := FirstWithPlace(root, d.schema.text);
      assert forall i :: FirstAt(s, i, d.schema.text) ==> i == p;
    }
    assert forall i, j, x :: FirstAt(s, i, x) && FirstAt(s, j, x) ==> i == j;
  }

  /** Wherever a schema with dependencies follows one with the same text, and needs something that one does not lead
      to, the order fails: the shared text is merged for the first and too early for the second. */
  lemma SameTextFails(root: Dependency, rest: seq<Dependency>, x: Dependency, y: Dependency, c: Dependency)
    requires root.dependencies == [x, y] + rest && x.schema.text == y.schema.text
    requires c in y.dependencies && c.schema.text !in PostOrderAll(x.dependencies)
    ensures !DependenciesFirst(root, Dedup(PostOrder(root)))
  {
    var s, text, before := PostOrder(root), x.schema.text, PostOrderAll(x.dependencies);
    assert root.dependencies[0] == x && root.dependencies[1] == y;
    assert Below(root.dependencies[1], y) && Below(root, y);
    assert PostOrderAll(root.dependencies) == PostOrder(x) + PostOrderAll(root.dependencies[1..]);
    assert s[..|before|] == before && s[|before|] == text;
    var p := FirstPlace(s, |before|);
    assert forall e :: e in s[..p] ==> e in s[..|before|];
    MergedOrderIff(root);
  }

  lemma {:induction false} FirstPlace(s: seq<string>, n: nat) returns (p: nat)
    requires n < |s|
    ensures p <= n && FirstAt(s, p, s[n])
    decreases n
  {
    if s[n] in s[..n] {
      var m :| 0 <= m < n && s[m] == s[n];
      p := FirstPlace(s, m);
    } else {
      p := n;
    }
  }
}
