/** The choice of the master among the members of a group generation (schema_coordinator.py). */
module Election {
  import opened Text

  datatype Identity = Identity(scheme: string, host: string, port: nat, eligible: bool)

  datatype Member = Member(id: string, identity: Identity)

  /** What the group leader sends to each member: the id and the identity of the master. */
  datatype Assignment = Assignment(member: string, master: string, masterIdentity: Identity)

  /** `get_member_url` */
  function Url(i: Identity): string { i.scheme + "://" + i.host + ":" + Decimal(i.port) }

  lemma FirstColon(p: string, x: string, q: string, y: string)
    requires ':' !in p && ':' !in q && p + ":" + x == q + ":" + y
    ensures p == q && x == y
  {
    var w := p + ":" + x;
    assert w[|p|] == ':' && w[|q|] == ':' && forall i :: 0 <= i < |p| ==> w[i] == p[i];
    assert forall i :: 0 <= i < |q| ==> w[i] == q[i];
    assert |p| == |q| && w[..|p|] == p && w[..|q|] == q && w[|p| + 1..] == x && w[|q| + 1..] == y;
  }

  lemma LastColon(x: string, p: string, y: string, q: string)
    requires ':' !in p && ':' !in q && x + ":" + p == y + ":" + q
    ensures x == y && p == q
  {
    var w := x + ":" + p;
    assert w[|x|] == ':' && w[|y|] == ':' && forall i :: |x| < i < |w| ==> w[i] == p[i - |x| - 1];
    assert forall i :: |y| < i < |w| ==> w[i] == q[i - |y| - 1];
    assert |x| == |y| && w[..|x|] == x && w[..|y|] == y && w[|x| + 1..] == p && w[|y| + 1..] == q;
  }

  /** The URL of a member tells its scheme, host and port, also for hosts with colons. */
  lemma UrlTells(a: Identity, b: Identity)
    requires ':' !in a.scheme && ':' !in b.scheme
    ensures Url(a) == Url(b) <==> a.scheme == b.scheme && a.host == b.host && a.port == b.port
  {
    DecimalMeans(a.port);
    DecimalMeans(b.port);
    if Url(a) == Url(b) {
      LastColon(a.scheme + "://" + a.host, Decimal(a.port), b.scheme + "://" + b.host, Decimal(b.port));
      assert "://" == ":" + "//";
      assert a.scheme + "://" + a.host == a.scheme + ":" + ("//" + a.host);
      assert b.scheme + "://" + b.host == b.scheme + ":" + ("//" + b.host);
      FirstColon(a.scheme, "//" + a.host, b.scheme, "//" + b.host);
      assert ("//" + a.host)[2..] == a.host && ("//" + b.host)[2..] == b.host;
    }
  }

  // ---------------------------------------------------------------- the order of strings

  predicate Less(a: string, b: string) {
    if b == [] then false
    else if a == [] then true
    else if a[0] != b[0] then a[0] < b[0]
    else Less(a[1..], b[1..])
  }

  lemma {:induction false} LessTotal(a: string, b: string)
    ensures Less(a, b) || a == b || Less(b, a)
    ensures !(Less(a, b) && Less(b, a))
    ensures !Less(a, a)
  {
    if a != [] { LessTotal(a[1..], a[1..]); }
    if a != [] && b != [] {
      LessTotal(a[1..], b[1..]);
      if a[0] == b[0] && a[1..] == b[1..] { assert a == [a[0]] + a[1..] && b == [b[0]] + b[1..]; }
    }
  }

  lemma {:induction false} LessTransitive(a: string, b: string, c: string)
    requires Less(a, b) && Less(b, c)
    ensures Less(a, c)
  {
    if a != [] && a[0] == b[0] == c[0] { LessTransitive(a[1..], b[1..], c[1..]); }
  }

  lemma FirstsAgree(a: string, b: string)
    ensures forall i :: 0 < i <= |a| && i <= |b| && a[..i] == b[..i] ==> a[0] == b[0]
  {
    forall i | 0 < i <= |a| && i <= |b| && a[..i] == b[..i] ensures a[0] == b[0] { assert a[..i][0] == b[..i][0]; }
  }

  /** The first place where two strings differ decides, and a proper prefix comes first. */
  lemma {:induction false} LessMeans(a: string, b: string)
    ensures Less(a, b) <==>
            a < b || exists i :: 0 <= i < |a| && i < |b| && a[..i] == b[..i] && a[i] < b[i]
  {
    if a != [] && b != [] && a[0] == b[0] {
      LessMeans(a[1..], b[1..]);
      assert a == [a[0]] + a[1..] && b == [b[0]] + b[1..];
      if i :| 0 <= i < |a[1..]| && i < |b[1..]| && a[1..][..i] == b[1..][..i] && a[1..][i] < b[1..][i] {
        assert a[..i + 1] == [a[0]] + a[1..][..i] && b[..i + 1] == [b[0]] + b[1..][..i];
        assert a[i + 1] < b[i + 1];
      }
      if i :| 0 <= i < |a| && i < |b| && a[..i] == b[..i] && a[i] < b[i] {
        assert i > 0 && a[1..][..i - 1] == a[..i][1..] && b[1..][..i - 1] == b[..i][1..];
      }
    } else if a != [] && b != [] {
      FirstsAgree(a, b);
      if a[0] < b[0] { assert a[..0] == b[..0]; }
    }
  }

  /** `a` comes first when URLs are sorted, in reverse for the `highest` strategy. */
  predicate Before(highest: bool, a: string, b: string) { if highest then Less(b, a) else Less(a, b) }

  lemma BeforeTotal(highest: bool, a: string, b: string)
    ensures Before(highest, a, b) || a == b || Before(highest, b, a)
    ensures !(Before(highest, a, b) && Before(highest, b, a))
    ensures !Before(highest, a, a)
  {
    LessTotal(a, b);
    LessTotal(b, a);
  }

  lemma BeforeTransitive(highest: bool, a: string, b: string, c: string)
    requires Before(highest, a, b) && Before(highest, b, c)
    ensures Before(highest, a, c)
  {
    if highest { LessTransitive(c, b, a); } else { LessTransitive(a, b, c); }
  }

  // ---------------------------------------------------------------- the master

  ghost predicate Candidate(members: seq<Member>, m: Member) {
    m in members && ((exists e :: e in members && e.identity.eligible) ==> m.identity.eligible)
  }

  /** A candidate whose URL no other candidate's URL precedes. */
  ghost predicate IsMaster(members: seq<Member>, highest: bool, m: Member) {
    Candidate(members, m) &&
    forall x :: Candidate(members, x) ==> !Before(highest, Url(x.identity), Url(m.identity))
  }

  ghost predicate DistinctMembers(members: seq<Member>) {
    forall i, j :: 0 <= i < j < |members| ==>
      members[i].id != members[j].id && Url(members[i].identity) != Url(members[j].identity)
  }

  /** The smallest or greatest key of a non-empty URL dict: `sorted(urls, reverse=highest)[0]`. */
  method FirstUrl(urls: map<string, Member>, highest: bool) returns (first: string)
    requires urls != map[]
    ensures first in urls
    ensures forall u :: u in urls ==> !Before(highest, u, first)
  {
    first :| first in urls;
    var rest := urls.Keys - {first};
    BeforeTotal(highest, first, first);
    while rest != {}
      invariant rest <= urls.Keys && first in urls && first !in rest
      invariant forall u :: u in urls && u !in rest ==> !Before(highest, u, first)
      decreases rest
    {
      var u :| u in rest;
      rest := rest - {u};
      BeforeTotal(highest, u, first);
      if Before(highest, u, first) {
        forall w | w in urls && w !in rest ensures !Before(highest, w, u) {
          BeforeTotal(highest, w, u);
          if Before(highest, w, u) && w != u { BeforeTransitive(highest, w, u, first); }
        }
        first := u;
      }
    }
  }

  /** `perform_assignment`: two passes over the members. */
  method PerformAssignment(members: seq<Member>, highest: bool)
    returns (assignments: seq<Assignment>, ghost master: Member)
    requires members != []
    ensures IsMaster(members, highest, master)
    ensures |assignments| == |members|
    ensures forall i :: 0 <= i < |members| ==> assignments[i] == Assignment(members[i].id, master.id, master.identity)
  {
    var urls: map<string, Member>, fallback: map<string, Member> := map[], map[];
    for i := 0 to |members|
      invariant forall u :: u in urls ==> urls[u] in members && urls[u].identity.eligible && Url(urls[u].identity) == u
      invariant forall u :: u in fallback ==> fallback[u] in members && Url(fallback[u].identity) == u
      invariant forall k :: 0 <= k < i ==>
                  if members[k].identity.eligible then Url(members[k].identity) in urls
                    else Url(members[k].identity) in fallback
    {
      var url := Url(members[i].identity);
      if members[i].identity.eligible {
        urls := urls[url := members[i]];
      } else {
        fallback := fallback[url := members[i]];
      }
    }
    var chosen: Member;
    if urls != map[] {
      var first := FirstUrl(urls, highest);
      chosen := urls[first];
    } else {
      assert Url(members[0].identity) in fallback;
      var first := FirstUrl(fallback, highest);
      chosen := fallback[first];
    }
    master := chosen;
    forall x | Candidate(members, x) ensures !Before(highest, Url(x.identity), Url(master.identity)) {
      var k :| 0 <= k < |members| && members[k] == x;
      if urls != map[] {
        var u :| u in urls;
        assert urls[u] in members && urls[u].identity.eligible;
      }
    }
    assignments := [];
    for i := 0 to |members|
      invariant |assignments| == i
      invariant forall k :: 0 <= k < i ==> assignments[k] == Assignment(members[k].id, master.id, master.identity)
    {
      assignments := assignments + [Assignment(members[i].id, chosen.id, chosen.identity)];
    }
  }

  /** The test of `_on_join_complete`: the assignment names this member, and the master is eligible. */
  predicate Believes(a: Assignment) { a.master == a.member && a.masterIdentity.eligible }

  lemma MasterUnique(members: seq<Member>, highest: bool, a: Member, b: Member)
    requires DistinctMembers(members) && IsMaster(members, highest, a) && IsMaster(members, highest, b)
    ensures a == b
  {
    BeforeTotal(highest, Url(a.identity), Url(b.identity));
    var i :| 0 <= i < |members| && members[i] == a;
    var j :| 0 <= j < |members| && members[j] == b;
    assert i != j ==> Url(a.identity) != Url(b.identity);
  }

  /** After an assignment round exactly one member believes it is master if some member is eligible, and none
      otherwise; the one is the eligible member with the first URL. */
  lemma ExactlyOneMaster(members: seq<Member>, highest: bool, master: Member, assignments: seq<Assignment>)
    requires DistinctMembers(members) && IsMaster(members, highest, master) && |assignments| == |members|
    requires forall i :: 0 <= i < |members| ==> assignments[i] == Assignment(members[i].id, master.id, master.identity)
    ensures forall i :: 0 <= i < |members| ==>
              (Believes(assignments[i]) <==> members[i] == master && master.identity.eligible)
    ensures (exists i :: 0 <= i < |members| && Believes(assignments[i])) <==>
              (exists m :: m in members && m.identity.eligible)
    ensures forall i, j :: 0 <= i < j < |members| ==> !(Believes(assignments[i]) && Believes(assignments[j]))
    ensures forall m :: m in members && m.identity.eligible && m != master ==>
              Before(highest, Url(master.identity), Url(m.identity))
  {
    var k :| 0 <= k < |members| && members[k] == master;
    forall i | 0 <= i < |members|
      ensures Believes(assignments[i]) <==> members[i] == master && master.identity.eligible
    {
      if members[i].id == master.id && i != k { assert false; }
    }
    forall m | m in members && m.identity.eligible && m != master
      ensures Before(highest, Url(master.identity), Url(m.identity))
    {
      var j :| 0 <= j < |members| && members[j] == m;
      assert j != k;
      BeforeTotal(highest, Url(master.identity), Url(m.identity));
      assert Candidate(members, m);
    }
  }

  /** The order in which the members are listed does not matter. */
  lemma OrderIrrelevant(members: seq<Member>, others: seq<Member>, highest: bool, m: Member)
    requires forall x :: x in members <==> x in others
    ensures IsMaster(members, highest, m) <==> IsMaster(others, highest, m)
  {
    assert forall x :: Candidate(members, x) <==> Candidate(others, x);
  }
}
