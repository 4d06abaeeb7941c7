/** The sequence operators the program takes from LINQ and `List<T>`: `All`,
    `Where(...).ToList()` and `RemoveAll`, together with an independent notion of
    "subsequence" that states what order preservation means. */
module Linq {

  /** `s.All(p)`. */
  function All<T>(s: seq<T>, p: T -> bool): (r: bool)
    ensures r <==> forall i :: 0 <= i < |s| ==> p(s[i])
  {
    if |s| == 0 then true else p(s[0]) && All(s[1..], p)
  }

  /** Number of elements of `s` that satisfy `p`. */
  function Count<T>(s: seq<T>, p: T -> bool): (n: nat)
    ensures n <= |s|
  {
    if |s| == 0 then 0 else (if p(s[0]) then 1 else 0) + Count(s[1..], p)
  }

  /** `a` can be obtained from `b` by deleting elements, keeping the rest in order. */
  predicate IsSubsequence<T(==,!new)>(a: seq<T>, b: seq<T>)
    decreases |b|
  {
    if |a| == 0 then true
    else if |b| == 0 then false
    else if a[0] == b[0] then IsSubsequence(a[1..], b[1..])
    else IsSubsequence(a, b[1..])
  }

  /** `s.Where(p).ToList()`: the elements satisfying `p`, every occurrence of them,
      and nothing else. */
  function Where<T(==,!new)>(s: seq<T>, p: T -> bool): (r: seq<T>)
    ensures |r| == Count(s, p)
    ensures forall i :: 0 <= i < |r| ==> p(r[i])
    ensures forall x :: multiset(r)[x] == if p(x) then multiset(s)[x] else 0
  {
    if |s| == 0 then []
    else
      var rest := Where(s[1..], p);
      assert s == [s[0]] + s[1..];
      if p(s[0]) then [s[0]] + rest else rest
  }

  /** Where keeps the order of the collection. */
  lemma {:induction false} WhereIsSubsequence<T(!new)>(s: seq<T>, p: T -> bool)
    ensures IsSubsequence(Where(s, p), s)
  {
    if |s| > 0 {
      WhereIsSubsequence(s[1..], p);
      var r := Where(s, p);
      if p(s[0]) {
        assert r[1..] == Where(s[1..], p);
      } else if |r| > 0 {
        assert r[0] != s[0] by { assert p(r[0]); }
      }
    }
  }

  /** A subsequence takes no element more often than the sequence holds it. */
  lemma {:induction false} SubsequenceMultiset<T(!new)>(a: seq<T>, b: seq<T>)
    requires IsSubsequence(a, b)
    ensures multiset(a) <= multiset(b)
    decreases |b|
  {
    if |a| > 0 {
      assert b == [b[0]] + b[1..];
      if a[0] == b[0] {
        assert a == [a[0]] + a[1..];
        SubsequenceMultiset(a[1..], b[1..]);
      } else {
        SubsequenceMultiset(a, b[1..]);
      }
    }
  }

  /** Where is the only order-preserving selection of the elements satisfying `p`:
      any subsequence of `s` holding exactly those elements, as often as `s` holds
      them, is `Where(s, p)`. */
  lemma {:induction false} WhereIsUnique<T(!new)>(s: seq<T>, p: T -> bool, a: seq<T>)
    requires IsSubsequence(a, s)
    requires forall x :: multiset(a)[x] == if p(x) then multiset(s)[x] else 0
    ensures a == Where(s, p)
    decreases |s|
  {
    if |s| == 0 {
      assert |a| == 0;
    } else {
      var h, t := s[0], s[1..];
      assert s == [h] + t;
      if p(h) {
        assert multiset(a)[h] > 0;
        assert |a| > 0;
        if a[0] != h {
          SubsequenceMultiset(a, t);
          assert false;
        }
        assert a == [h] + a[1..];
        WhereIsUnique(t, p, a[1..]);
      } else {
        if |a| > 0 {
          assert a[0] in multiset(a);
          assert a[0] != h;
        }
        WhereIsUnique(t, p, a);
      }
    }
  }

  /** Filtering a concatenation filters each part. */
  lemma {:induction false} WhereDistributes<T(!new)>(a: seq<T>, b: seq<T>, p: T -> bool)
    ensures Where(a + b, p) == Where(a, p) + Where(b, p)
  {
    if |a| > 0 {
      assert (a + b)[0] == a[0];
      assert (a + b)[1..] == a[1..] + b;
      assert Where(a + b, p) == (if p(a[0]) then [a[0]] else []) + Where(a[1..] + b, p);
      WhereDistributes(a[1..], b, p);
    } else {
      assert a + b == b;
    }
  }

  /** Appending one element to the collection appends it to the filtered result
      when it qualifies, and changes nothing otherwise. */
  lemma WhereAppend<T(!new)>(s: seq<T>, x: T, p: T -> bool)
    ensures Where(s + [x], p) == Where(s, p) + (if p(x) then [x] else [])
  {
    WhereDistributes(s, [x], p);
    assert [x][1..] == [];
  }

  /** Where returns the collection itself exactly when every element qualifies. */
  lemma {:induction false} WhereKeepsAll<T(!new)>(s: seq<T>, p: T -> bool)
    ensures Where(s, p) == s <==> forall i :: 0 <= i < |s| ==> p(s[i])
  {
    if |s| > 0 {
      WhereKeepsAll(s[1..], p);
      if !p(s[0]) {
        assert |Where(s, p)| <= |s[1..]|;
      }
    }
  }

  /** The result of `List<T>.RemoveAll`: the list that is left and the returned count. */
  datatype Removal<T> = Removal(kept: seq<T>, removed: nat)

  /** `list.RemoveAll(p)`: removes every element satisfying `p` and returns how many went. */
  function RemoveAll<T(==,!new)>(s: seq<T>, p: T -> bool): (r: Removal<T>)
    ensures r.removed == |s| - |r.kept|
    ensures r.removed == Count(s, p)
    ensures forall i :: 0 <= i < |r.kept| ==> !p(r.kept[i])
    ensures forall x :: multiset(r.kept)[x] == if p(x) then 0 else multiset(s)[x]
  {
    if |s| == 0 then Removal([], 0)
    else
      var rest := RemoveAll(s[1..], p);
      assert s == [s[0]] + s[1..];
      if p(s[0]) then Removal(rest.kept, rest.removed + 1)
      else Removal([s[0]] + rest.kept, rest.removed)
  }

  /** What RemoveAll keeps is what Where with the negated predicate selects, so the
      survivors stay in their original order. */
  lemma {:induction false} RemoveAllKeepsTheRest<T(!new)>(s: seq<T>, p: T -> bool)
    ensures RemoveAll(s, p).kept == Where(s, x => !p(x))
    ensures IsSubsequence(RemoveAll(s, p).kept, s)
  {
    if |s| > 0 {
      RemoveAllKeepsTheRest(s[1..], p);
    }
    WhereIsSubsequence(s, x => !p(x));
  }

  /** A RemoveAll that reports nothing removed left the list as it was. */
  lemma RemoveNothing<T(!new)>(s: seq<T>, p: T -> bool)
    ensures RemoveAll(s, p).removed == 0 <==> RemoveAll(s, p).kept == s
  {
    var r := RemoveAll(s, p);
    if r.removed == 0 {
      RemoveAllKeepsTheRest(s, p);
      FullSubsequence(r.kept, s);
    }
  }

  /** A subsequence as long as the sequence is the sequence itself. */
  lemma {:induction false} FullSubsequence<T(!new)>(a: seq<T>, b: seq<T>)
    requires IsSubsequence(a, b) && |a| == |b|
    ensures a == b
    decreases |b|
  {
    if |b| > 0 {
      if a[0] == b[0] {
        FullSubsequence(a[1..], b[1..]);
        assert a == [a[0]] + a[1..];
      } else {
        SubsequenceLength(a, b[1..]);
      }
    }
  }

  lemma {:induction false} SubsequenceLength<T(!new)>(a: seq<T>, b: seq<T>)
    requires IsSubsequence(a, b)
    ensures |a| <= |b|
    decreases |b|
  {
    if |a| > 0 {
      if a[0] == b[0] {
        SubsequenceLength(a[1..], b[1..]);
      } else {
        SubsequenceLength(a, b[1..]);
      }
    }
  }
}
