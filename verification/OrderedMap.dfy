// Iteration over a std::map with integer keys: ascending key order.
module OrderedMap {

  function MinOf(s: set<int>): (m: int)
    requires s != {}
    ensures m in s && forall v :: v in s ==> m <= v
  {
    MinExists(s);
    var m :| m in s && forall v :: v in s ==> m <= v;
    m
  }

  lemma Inhabited<T>(s: set<T>)
    requires s != {}
    ensures exists x :: x in s
  {
  }

  ghost function Pick<T>(s: set<T>): (x: T)
    requires s != {}
    ensures x in s
  {
    Inhabited(s);
    var x :| x in s;
    x
  }

  lemma {:induction false} MinExists(s: set<int>)
    requires s != {}
    ensures exists m :: m in s && forall v :: v in s ==> m <= v
    decreases |s|
  {
    var x := Pick(s);
    var s' := s - {x};
    if s' == {} {
      assert s == {x};
      assert x in s && forall v :: v in s ==> x <= v;
    } else {
      MinExists(s');
      var m' :| m' in s' && forall v :: v in s' ==> m' <= v;
      var m := if x <= m' then x else m';
      assert m in s && forall v :: v in s ==> m <= v by {
        assert forall v :: v in s ==> v == x || v in s';
      }
    }
  }

  function Keys(s: set<int>): (k: seq<int>)
    ensures forall v :: v in k <==> v in s
    ensures forall i, j :: 0 <= i < j < |k| ==> k[i] < k[j]
    decreases |s|
  {
    if s == {} then []
    else
      var m := MinOf(s);
      var rest := Keys(s - {m});
      assert forall i :: 0 <= i < |rest| ==> rest[i] in rest;
      [m] + rest
  }

  // The entries visited by the first i steps of the iteration.
  ghost function Visited<V>(t: map<int, V>, i: nat): (s: map<int, V>)
    requires i <= |Keys(t.Keys)|
    decreases i
  {
    if i == 0 then map[]
    else
      assert Keys(t.Keys)[i - 1] in Keys(t.Keys);
      Visited(t, i - 1)[Keys(t.Keys)[i - 1] := t[Keys(t.Keys)[i - 1]]]
  }

  lemma {:induction false} VisitedFrom<V>(t: map<int, V>, i: nat, v: int)
    requires i <= |Keys(t.Keys)| && v in Visited(t, i)
    ensures v in t && Visited(t, i)[v] == t[v]
    ensures i < |Keys(t.Keys)| ==> v < Keys(t.Keys)[i]
    decreases i
  {
    var u := Keys(t.Keys)[i - 1];
    assert u in Keys(t.Keys);
    if v != u {
      VisitedFrom(t, i - 1, v);
    }
  }

  lemma {:induction false} VisitedHas<V>(t: map<int, V>, i: nat, j: nat)
    requires j < i <= |Keys(t.Keys)|
    ensures Keys(t.Keys)[j] in Visited(t, i)
    decreases i
  {
    hide Keys;
    if j < i - 1 {
      VisitedHas(t, i - 1, j);
    }
  }

  lemma VisitedStep<V>(t: map<int, V>, i: nat)
    requires i < |Keys(t.Keys)|
    ensures
      var v := Keys(t.Keys)[i];
      v in t && v !in Visited(t, i) && Visited(t, i + 1) == Visited(t, i)[v := t[v]]
  {
    var v := Keys(t.Keys)[i];
    assert v in Keys(t.Keys);
    if v in Visited(t, i) {
      VisitedFrom(t, i, v);
      assert false;
    }
  }

  lemma VisitedAll<V>(t: map<int, V>)
    ensures Visited(t, |Keys(t.Keys)|) == t
  {
    var k := Keys(t.Keys);
    var s := Visited(t, |k|);
    forall v ensures v in s ==> v in t && s[v] == t[v]
             ensures v in t ==> v in s
    {
      if v in s { VisitedFrom(t, |k|, v); }
      if v in t {
        assert v in k;
        var j :| 0 <= j < |k| && k[j] == v;
        VisitedHas(t, |k|, j);
      }
    }
    SameMap(s, t);
  }

  lemma SameMap<K, V>(s: map<K, V>, t: map<K, V>)
    requires forall v :: v in s <==> v in t
    requires forall v :: v in s ==> s[v] == t[v]
    ensures s == t
  {
  }
}
