/** Insertion-ordered dictionaries, with the ordering rules of Python's `dict`:
    overwriting a key keeps its place, a key that was popped comes back at the end. */
module Dicts {

  datatype Dict<K(==, !new), V> = Dict(keys: seq<K>, entries: map<K, V>) {

    /** `keys` lists the domain of `entries`, each key once. */
    ghost predicate Ok() {
      && (forall i, j :: 0 <= i < j < |keys| ==> keys[i] != keys[j])
      && (forall k | k in keys :: k in entries)
      && (forall k | k in entries :: k in keys)
    }

    function Put(k: K, v: V): Dict<K, V> {
      Dict(if k in entries then keys else keys + [k], entries[k := v])
    }

    function Pop(k: K): Dict<K, V> {
      Dict(Without(keys, k), entries - {k})
    }

    lemma PutOk(k: K, v: V)
      requires Ok()
      ensures Put(k, v).Ok()
    {
    }

    lemma PopOk(k: K)
      requires Ok()
      ensures Pop(k).Ok()
    {
      WithoutSpec(keys, k);
    }
  }

  function Empty<K(==, !new), V>(): Dict<K, V> { Dict([], map[]) }

  /** `s` without the first occurrence of `k`. */
  function Without<K(==)>(s: seq<K>, k: K): seq<K> {
    if s == [] then [] else if s[0] == k then s[1..] else [s[0]] + Without(s[1..], k)
  }

  lemma {:induction false} WithoutSpec<K(!new)>(s: seq<K>, k: K)
    requires forall i, j :: 0 <= i < j < |s| ==> s[i] != s[j]
    ensures forall x :: x in Without(s, k) <==> x in s && x != k
    ensures forall i, j :: 0 <= i < j < |Without(s, k)| ==> Without(s, k)[i] != Without(s, k)[j]
  {
    if s != [] {
      var t := s[1..];
      WithoutSpec(t, k);
      assert s == [s[0]] + t;
      var w, u := Without(s, k), Without(t, k);
      if s[0] == k {
        assert w == t;
        assert forall i :: 0 <= i < |w| ==> w[i] == s[i + 1];
      } else {
        assert w == [s[0]] + u;
        forall i, j | 0 <= i < j < |w| ensures w[i] != w[j] {
          if i == 0 { assert w[j] == u[j - 1] && u[j - 1] in u; } else { assert w[i] == u[i - 1] && w[j] == u[j - 1]; }
        }
      }
    }
  }

  ghost predicate Ascending(s: seq<int>) {
    forall i, j :: 0 <= i < j < |s| ==> s[i] < s[j]
  }

  lemma {:induction false} WithoutAscending(s: seq<int>, k: int)
    requires Ascending(s)
    ensures Ascending(Without(s, k))
  {
    if s != [] {
      var t := s[1..];
      WithoutAscending(t, k);
      WithoutSpec(t, k);
      assert forall x :: x in t ==> s[0] < x;
      if s[0] != k {
        var w := Without(t, k);
        assert Without(s, k) == [s[0]] + w;
        forall i, j | 0 <= i < j < |Without(s, k)|
          ensures Without(s, k)[i] < Without(s, k)[j]
        {
          if i == 0 { assert w[j - 1] in w; }
        }
      }
    }
  }
}
