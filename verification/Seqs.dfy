/** Sequences without repetition. */
module Seqs {

  ghost predicate NoDup<T>(s: seq<T>) {
    forall i, j :: 0 <= i < j < |s| ==> s[i] != s[j]
  }

  lemma {:induction false} NoDupNone<T>()
    ensures NoDup<T>([])
  {}

  lemma {:induction false} NoDupAppend<T>(a: seq<T>, b: seq<T>)
    requires NoDup(a) && NoDup(b) && forall x :: x in a ==> x !in b
    ensures NoDup(a + b)
  {
    forall i, j | 0 <= i < j < |a + b| ensures (a + b)[i] != (a + b)[j] {
      if i < |a| <= j { assert a[i] in a && b[j - |a|] in b; }
    }
  }

  /** No element twice means no multiplicity above one. */
  lemma {:induction false} NoDupCount<T>(s: seq<T>)
    ensures NoDup(s) <==> forall x :: multiset(s)[x] <= 1
  {
    if s != [] {
      var n := |s| - 1;
      var front, last := s[..n], s[n];
      assert s == front + [last];
      NoDupCount(front);
      assert forall x :: multiset(s)[x] == multiset(front)[x] + if x == last then 1 else 0;
      if NoDup(s) {
        assert last !in front;
      } else if NoDup(front) {
        var i, j :| 0 <= i < j < |s| && s[i] == s[j];
        assert front[i] == last;
      }
    }
  }

  lemma {:induction false} NoDupSame<T>(s: seq<T>, t: seq<T>)
    requires multiset(s) == multiset(t) && NoDup(s)
    ensures NoDup(t) && forall x :: x in t <==> x in s
  {
    NoDupCount(s);
    NoDupCount(t);
    forall x ensures x in t <==> x in s { assert x in s <==> x in multiset(s); assert x in t <==> x in multiset(t); }
  }
}
