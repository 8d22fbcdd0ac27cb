/** Iteration over a std::map: by ascending key. */
module MapOrder {
  lemma HasElement(s: set<int>)
    ensures s == {} || exists k :: k in s
  {
    if !exists k :: k in s { assert forall k :: k !in s; }
  }

  ghost predicate Least(s: set<int>, k: int) {
    k in s && forall j :: j in s ==> k <= j
  }

  lemma {:induction false} HasLeast(s: set<int>, k: int) returns (least: int)
    requires k in s
    ensures Least(s, least)
    decreases |s|
  {
    least := k;
    if j :| j in s && j < k {
      least := HasLeast(s - {k}, j);
      assert forall i :: i in s ==> i == k || i in s - {k};
    }
  }

  predicate Sorted(keys: seq<int>) {
    forall i, j :: 0 <= i < j < |keys| ==> keys[i] < keys[j]
  }

  /** The keys in the order of an iteration over a std::map. */
  method KeysInOrder<V>(m: map<int, V>) returns (keys: seq<int>)
    ensures Sorted(keys) && forall k :: k in keys <==> k in m
    ensures forall i :: 0 <= i < |keys| ==> keys[i] in m
  {
    var rest := m.Keys;
    keys := [];
    while rest != {}
      invariant Sorted(keys) && forall k :: k in m <==> k in keys || k in rest
      invariant forall i, k :: 0 <= i < |keys| && k in rest ==> keys[i] < k
    {
      HasElement(rest);
      var some :| some in rest;
      ghost var least := HasLeast(rest, some);
      var k :| k in rest && forall j :: j in rest ==> k <= j;
      keys := keys + [k];
      rest := rest - {k};
    }
  }
}
