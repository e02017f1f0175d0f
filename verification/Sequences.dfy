/** Sequences up to reordering. */
module Sequences {
  function Dropped<T>(s: seq<T>, k: nat): seq<T>
    requires k < |s|
  {
    s[..k] + s[k + 1..]
  }

  lemma {:induction false} DroppedMultiset<T>(s: seq<T>, k: nat)
    requires k < |s|
    ensures multiset(s) == multiset{s[k]} + multiset(Dropped(s, k))
  {
    assert s == s[..k] + [s[k]] + s[k + 1..];
  }

  lemma {:induction false} DroppedSame<T>(p: seq<T>, q: seq<T>, k: nat)
    requires p != [] && k < |q| && q[k] == p[0] && multiset(p) == multiset(q)
    ensures multiset(Dropped(p, 0)) == multiset(Dropped(q, k))
  {
    DroppedMultiset(p, 0);
    DroppedMultiset(q, k);
    assert multiset(Dropped(p, 0)) == multiset(p) - multiset{p[0]};
    assert multiset(Dropped(q, k)) == multiset(q) - multiset{q[k]};
  }

  lemma {:induction false} SameMembers<T>(p: seq<T>, q: seq<T>)
    requires multiset(p) == multiset(q)
    ensures |p| == |q| && forall x :: x in p <==> x in q
  {
    assert |p| == |multiset(p)| && |q| == |multiset(q)|;
    forall x ensures x in p <==> x in q {
      assert x in p <==> x in multiset(p);
      assert x in q <==> x in multiset(q);
    }
  }

  /** Where the first element of a sequence stands in a reordering of it. */
  lemma {:induction false} FindFirst<T>(p: seq<T>, q: seq<T>) returns (k: nat)
    requires p != [] && multiset(p) == multiset(q)
    ensures k < |q| && q[k] == p[0]
    ensures multiset(p[1..]) == multiset(Dropped(q, k))
  {
    SameMembers(p, q);
    assert p[0] in q;
    k :| 0 <= k < |q| && q[k] == p[0];
    DroppedSame(p, q, k);
    assert Dropped(p, 0) == p[1..];
  }
}
