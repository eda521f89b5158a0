/** Lists of distinct things, and the sets and multisets they make. */
module Seqs {

  ghost predicate Distinct<T>(s: seq<T>) { forall i, j :: 0 <= i < j < |s| ==> s[i] != s[j] }

  function Elements<T(==)>(s: seq<T>): set<T> { set x | x in s }

  lemma {:induction false} SubsetSize<T>(a: set<T>, b: set<T>)
    requires a <= b
    ensures |a| <= |b| && (|a| == |b| ==> a == b)
  {
    assert b == a + (b - a);
    assert |b| == |a| + |b - a|;
  }

  lemma {:induction false} DistinctSize<T>(s: seq<T>)
    requires Distinct(s)
    ensures |Elements(s)| == |s|
  {
    if s != [] {
      var n := |s| - 1;
      DistinctSize(s[..n]);
      assert s == s[..n] + [s[n]];
      assert Elements(s) == Elements(s[..n]) + {s[n]};
    }
  }

  lemma {:induction false} DistinctMultiset<T>(s: seq<T>, x: T)
    requires Distinct(s)
    ensures multiset(s)[x] == if x in s then 1 else 0
  {
    if s != [] {
      var n := |s| - 1;
      assert s == s[..n] + [s[n]];
      DistinctMultiset(s[..n], x);
    }
  }

  lemma {:induction false} SameElements<T>(s: seq<T>, t: seq<T>)
    requires Distinct(s) && Distinct(t) && forall x :: x in s <==> x in t
    ensures multiset(s) == multiset(t)
  {
    forall x | x in multiset(s) || x in multiset(t) ensures multiset(s)[x] == multiset(t)[x] {
      DistinctMultiset(s, x);
      DistinctMultiset(t, x);
    }
  }

  lemma {:induction false} TwoCopies<T>(s: seq<T>, i: nat, j: nat)
    requires i < j < |s| && s[i] == s[j]
    ensures multiset(s)[s[i]] >= 2
  {
    assert s == s[..j] + s[j..];
    assert s[i] in s[..j] && s[j] in s[j..];
    assert multiset(s)[s[i]] == multiset(s[..j])[s[i]] + multiset(s[j..])[s[i]];
  }

  /** A rearrangement of distinct things is distinct, and has the same ones. */
  lemma {:induction false} Rearranged<T>(s: seq<T>, t: seq<T>)
    requires Distinct(s) && multiset(s) == multiset(t)
    ensures Distinct(t) && |s| == |t| && forall x :: x in t <==> x in s
  {
    assert |multiset(s)| == |s| && |multiset(t)| == |t|;
    forall x ensures x in t <==> x in s {
      assert x in t <==> x in multiset(t);
      assert x in s <==> x in multiset(s);
    }
    forall i, j | 0 <= i < j < |t| ensures t[i] != t[j] {
      DistinctMultiset(s, t[i]);
      if t[i] == t[j] {
        TwoCopies(t, i, j);
      }
    }
  }

  lemma {:induction false} Nothing<T>()
    ensures Distinct<T>([]) && Elements<T>([]) == {}
  {}

  lemma {:induction false} OneMore<T>(s: seq<T>, x: T)
    requires Distinct(s) && x !in Elements(s)
    ensures Distinct(s + [x]) && Elements(s + [x]) == Elements(s) + {x}
  {
    assert forall i :: 0 <= i < |s| ==> s[i] in Elements(s);
  }

  /** Up to `take` members of a set, in some order: what a query without an order returns. */
  method Pick<T(==)>(s: set<T>, take: nat) returns (out: seq<T>)
    ensures Distinct(out) && Elements(out) <= s && |out| <= take
    ensures |out| < take || |s| <= take ==> Elements(out) == s
    ensures |out| == |Elements(out)|
  {
    hide Distinct, Elements;
    out := [];
    var rest := s;
    Nothing<T>();
    while |out| < take && rest != {}
      invariant |out| <= take && Distinct(out)
      invariant Elements(out) + rest == s && Elements(out) !! rest
      decreases take - |out|
    {
      var x :| x in rest;
      OneMore(out, x);
      out, rest := out + [x], rest - {x};
    }
    DistinctSize(out);
    SubsetSize(Elements(out), s);
  }
}
