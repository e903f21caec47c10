/** `ORDER BY "date" DESC` over a set of distinct integer keys. */
module Ordering {

  /** Each element is larger than every element after it: sorted from the
      most recent date down, and no date appears twice. */
  predicate StrictlyDescending(s: seq<int>) {
    forall i, j :: 0 <= i < j < |s| ==> s[i] > s[j]
  }

  /** A set other than {} has an element. */
  lemma HasElement(s: set<int>)
    requires s != {}
    ensures exists x :: x in s
  {
    if forall x :: x !in s {
      assert false;
    }
  }

  lemma {:induction false} MaxExists(s: set<int>)
    requires s != {}
    ensures exists m :: m in s && forall x :: x in s ==> x <= m
    decreases |s|
  {
    HasElement(s);
    var y :| y in s;
    var rest := s - {y};
    if rest == {} {
      forall x | x in s
        ensures x <= y
      {
        assert x !in rest;
      }
    } else {
      assert |rest| < |s|;
      MaxExists(rest);
      var m :| m in rest && forall x :: x in rest ==> x <= m;
      var top := if y <= m then m else y;
      forall x | x in s
        ensures x <= top
      {
        if x != y {
          assert x in rest;
        }
      }
      assert top in s;
    }
  }

  /** The largest element of a non-empty set. */
  function Max(s: set<int>): (m: int)
    requires s != {}
    ensures m in s && forall x :: x in s ==> x <= m
  {
    MaxExists(s);
    var m :| m in s && forall x :: x in s ==> x <= m;
    m
  }

  lemma PrependLarger(m: int, rest: seq<int>)
    requires StrictlyDescending(rest) && forall x :: x in rest ==> x < m
    ensures StrictlyDescending([m] + rest)
  {
    forall i, j | 0 <= i < j < |rest| + 1
      ensures ([m] + rest)[i] > ([m] + rest)[j]
    {
      assert rest[j - 1] in rest;
    }
  }

  /** The elements of `s` from the largest down. */
  function SortDesc(s: set<int>): (r: seq<int>)
    ensures |r| == |s|
    ensures forall x :: x in r <==> x in s
    ensures StrictlyDescending(r)
    decreases |s|
  {
    if s == {} then []
    else
      var m := Max(s);
      var rest := SortDesc(s - {m});
      PrependLarger(m, rest);
      [m] + rest
  }

  /** The head of a non-empty strictly descending sequence is its largest
      element, and the tail holds exactly the others. */
  lemma HeadAndTail(t: seq<int>, s: set<int>)
    requires t != [] && StrictlyDescending(t)
    requires forall x :: x in t <==> x in s
    ensures s != {} && t[0] == Max(s)
    ensures StrictlyDescending(t[1..])
    ensures forall x :: x in t[1..] <==> x in s - {t[0]}
  {
    assert t[0] in t;
    var m := Max(s);
    assert m in t;
    var k :| 0 <= k < |t| && t[k] == m;
    assert t[0] <= m;
    var rest := t[1..];
    forall x
      ensures x in rest <==> x in s - {m}
    {
      if x in rest {
        var k :| 0 <= k < |rest| && rest[k] == x;
        assert t[k + 1] == x && t[0] > t[k + 1];
      }
      if x in s - {m} {
        assert x in t;
        var k :| 0 <= k < |t| && t[k] == x;
        assert rest[k - 1] == x;
      }
    }
  }

  /** A sequence headed by the largest element and followed by SortDesc of
      the rest is SortDesc of the whole set. */
  lemma SortDescStep(t: seq<int>, s: set<int>)
    requires t != [] && s != {}
    requires t[0] == Max(s) && t[1..] == SortDesc(s - {Max(s)})
    ensures t == SortDesc(s)
  {
    assert t == [t[0]] + t[1..];
  }

  /** A strictly descending sequence is determined by its elements: it is
      SortDesc of them. So SortDesc is the one answer an ORDER BY DESC over
      unique keys can give. */
  lemma {:induction false} SortDescUnique(t: seq<int>, s: set<int>)
    requires StrictlyDescending(t)
    requires forall x :: x in t <==> x in s
    ensures t == SortDesc(s)
    decreases |t|
  {
    if t == [] {
      assert s == {} by {
        assert forall x :: x !in s;
      }
    } else {
      HeadAndTail(t, s);
      SortDescUnique(t[1..], s - {t[0]});
      SortDescStep(t, s);
    }
  }
}
