/** The std::list<std::string> operations the generator relies on when it
    builds its name tables: sort, merge of two sorted lists, and unique
    (which drops each element equal to the one before it). Together they
    turn lists into sorted lists without duplicates. */
module StringLists {
  import opened Text

  /** a comes no later than b. */
  predicate LessEq(a: string, b: string)
  {
    a == b || Less(a, b)
  }

  /** Neighbours are in order; for a total order this is sortedness. */
  ghost predicate AdjacentOrdered(s: seq<string>)
  {
    forall i | 0 <= i < |s| - 1 :: LessEq(s[i], s[i + 1])
  }

  lemma SortedIsAdjacentOrdered(s: seq<string>)
    requires Sorted(s)
    ensures AdjacentOrdered(s)
  {
    forall i | 0 <= i < |s| - 1 ensures LessEq(s[i], s[i + 1]) {
      assert s[i] == s[i + 1] || Less(s[i], s[i + 1]);
    }
  }

  /** Two neighbours that are not equal are strictly ordered. */
  lemma NotLessIsLessEq(a: string, b: string)
    requires !Less(b, a)
    ensures LessEq(a, b)
  {
    LessTotal(a, b);
  }

  /** An element no greater than the front of an ordered list extends it. */
  lemma ConsOrdered(x: string, t: seq<string>)
    requires AdjacentOrdered(t)
    requires |t| > 0 ==> LessEq(x, t[0])
    ensures AdjacentOrdered([x] + t)
  {
    var r := [x] + t;
    forall i | 0 <= i < |r| - 1 ensures LessEq(r[i], r[i + 1]) {
      if i > 0 {
        assert r[i] == t[i - 1] && r[i + 1] == t[i];
      }
    }
  }

  // ---------------------------------------------------------------------
  // sort
  // ---------------------------------------------------------------------

  /** x put into its place in an ordered list. */
  function Insert(x: string, s: seq<string>): (r: seq<string>)
    requires AdjacentOrdered(s)
    ensures AdjacentOrdered(r)
    ensures multiset(r) == multiset(s) + multiset{x}
    ensures r[0] == x || (|s| > 0 && r[0] == s[0])
    decreases |s|
  {
    if s == [] || LessEq(x, s[0]) then
      ConsOrdered(x, s);
      [x] + s
    else
      NotLessIsLessEq(s[0], x);
      var t := s[1..];
      assert s == [s[0]] + t;
      SuffixOrdered(s, 1);
      var rest := Insert(x, t);
      ConsOrdered(s[0], rest);
      [s[0]] + rest
  }

  /** std::list::sort: the elements in order, each as often as before. */
  function Sort(s: seq<string>): (r: seq<string>)
    ensures AdjacentOrdered(r)
    ensures multiset(r) == multiset(s)
    decreases |s|
  {
    if s == [] then []
    else
      assert s == [s[0]] + s[1..];
      Insert(s[0], Sort(s[1..]))
  }

  // ---------------------------------------------------------------------
  // merge
  // ---------------------------------------------------------------------

  /** std::list::merge of b into a: at each step the front of b is taken
      only when it is strictly smaller than the front of a. */
  function Merge(a: seq<string>, b: seq<string>): (r: seq<string>)
    requires AdjacentOrdered(a) && AdjacentOrdered(b)
    ensures AdjacentOrdered(r)
    ensures multiset(r) == multiset(a) + multiset(b)
    ensures |r| > 0 ==> (|a| > 0 && r[0] == a[0]) || (|b| > 0 && r[0] == b[0])
    decreases |a| + |b|
  {
    if a == [] then b
    else if b == [] then a
    else if Less(b[0], a[0]) then
      assert b == [b[0]] + b[1..];
      SuffixOrdered(b, 1);
      var rest := Merge(a, b[1..]);
      ConsOrdered(b[0], rest);
      [b[0]] + rest
    else
      NotLessIsLessEq(a[0], b[0]);
      assert a == [a[0]] + a[1..];
      SuffixOrdered(a, 1);
      var rest := Merge(a[1..], b);
      ConsOrdered(a[0], rest);
      [a[0]] + rest
  }

  /** The merge so far: r is the output already produced, and what is left
      of a and b merges into the rest. */
  ghost predicate MergeSoFar(a: seq<string>, b: seq<string>, i: nat, j: nat, r: seq<string>)
  {
    i <= |a| && j <= |b| && AdjacentOrdered(a) && AdjacentOrdered(b)
    && AdjacentOrdered(a[i..]) && AdjacentOrdered(b[j..])
    && r + Merge(a[i..], b[j..]) == Merge(a, b)
  }

  lemma SuffixOrdered(s: seq<string>, i: nat)
    requires AdjacentOrdered(s) && i <= |s|
    ensures AdjacentOrdered(s[i..])
  {
    var t := s[i..];
    forall k | 0 <= k < |t| - 1 ensures LessEq(t[k], t[k + 1]) {
      assert t[k] == s[i + k] && t[k + 1] == s[i + k + 1];
    }
  }

  /** Taking the front of b. */
  lemma MergeTakeB(a: seq<string>, b: seq<string>, i: nat, j: nat, r: seq<string>)
    requires MergeSoFar(a, b, i, j, r)
    requires i < |a| && j < |b| && Less(b[j], a[i])
    ensures MergeSoFar(a, b, i, j + 1, r + [b[j]])
  {
    var bs := b[j..];
    assert bs[1..] == b[j + 1..];
    SuffixOrdered(b, j + 1);
    assert Merge(a[i..], bs) == [b[j]] + Merge(a[i..], b[j + 1..]);
  }

  /** Taking the front of a. */
  lemma MergeTakeA(a: seq<string>, b: seq<string>, i: nat, j: nat, r: seq<string>)
    requires MergeSoFar(a, b, i, j, r)
    requires i < |a| && j < |b| && !Less(b[j], a[i])
    ensures MergeSoFar(a, b, i + 1, j, r + [a[i]])
  {
    var as_ := a[i..];
    assert as_[1..] == a[i + 1..];
    SuffixOrdered(a, i + 1);
    assert Merge(as_, b[j..]) == [a[i]] + Merge(a[i + 1..], b[j..]);
  }

  /** One list used up: the rest of the other is spliced on. */
  lemma MergeFinish(a: seq<string>, b: seq<string>, i: nat, j: nat, r: seq<string>)
    requires MergeSoFar(a, b, i, j, r)
    requires i == |a| || j == |b|
    ensures r + (a[i..] + b[j..]) == Merge(a, b)
  {
    var rest := a[i..] + b[j..];
    if i == |a| {
      assert a[i..] == [] && rest == b[j..];
    } else {
      assert b[j..] == [] && rest == a[i..];
    }
    assert Merge(a[i..], b[j..]) == rest;
  }

  /** list::merge: walks both lists and moves each element of b in front of
      the first element of a that is greater than it. */
  method MergeLists(a: seq<string>, b: seq<string>) returns (r: seq<string>)
    requires AdjacentOrdered(a) && AdjacentOrdered(b)
    ensures r == Merge(a, b)
  {
    r := [];
    var i, j := 0, 0;
    while i < |a| && j < |b|
      invariant MergeSoFar(a, b, i, j, r)
      decreases |a| - i + |b| - j
    {
      if Less(b[j], a[i]) {
        MergeTakeB(a, b, i, j, r);
        r, j := r + [b[j]], j + 1;
      } else {
        MergeTakeA(a, b, i, j, r);
        r, i := r + [a[i]], i + 1;
      }
    }
    MergeFinish(a, b, i, j, r);
    r := r + (a[i..] + b[j..]);
  }

  // ---------------------------------------------------------------------
  // unique
  // ---------------------------------------------------------------------

  /** std::list::unique: every element equal to its predecessor removed. */
  function Unique(s: seq<string>): (r: seq<string>)
    ensures |s| > 0 ==> |r| > 0 && r[|r| - 1] == s[|s| - 1]
    ensures |r| <= |s|
    decreases |s|
  {
    if |s| <= 1 then s
    else
      var u := Unique(s[..|s| - 1]);
      if s[|s| - 2] == s[|s| - 1] then u else u + [s[|s| - 1]]
  }

  /** list::unique: keeps an element only when it differs from the one
      before it in the input. */
  method UniqueList(s: seq<string>) returns (r: seq<string>)
    ensures r == Unique(s)
  {
    r := [];
    var i := 0;
    while i < |s|
      invariant i <= |s|
      invariant r == Unique(s[..i])
    {
      assert s[..i + 1][..i] == s[..i];
      if i == 0 || s[i - 1] != s[i] {
        r := r + [s[i]];
      }
      i := i + 1;
    }
    assert s[..i] == s;
  }

  /** unique keeps exactly the elements that were there. */
  lemma {:induction false} UniqueElements(s: seq<string>)
    ensures forall x :: x in Unique(s) <==> x in s
    decreases |s|
  {
    if |s| > 1 {
      var init := s[..|s| - 1];
      UniqueElements(init);
      assert s == init + [s[|s| - 1]];
      if s[|s| - 2] == s[|s| - 1] {
        assert s[|s| - 1] in init;
      }
    }
  }

  /** On an ordered list, unique leaves a strictly increasing one. */
  lemma {:induction false} UniqueIncreasing(s: seq<string>)
    requires AdjacentOrdered(s)
    ensures AdjacentIncreasing(Unique(s))
    decreases |s|
  {
    if |s| > 1 {
      var init := s[..|s| - 1];
      assert AdjacentOrdered(init) by {
        forall i | 0 <= i < |init| - 1 ensures LessEq(init[i], init[i + 1]) {
          assert init[i] == s[i] && init[i + 1] == s[i + 1];
        }
      }
      UniqueIncreasing(init);
      var u := Unique(init);
      if s[|s| - 2] != s[|s| - 1] {
        assert LessEq(s[|s| - 2], s[|s| - 1]);
        assert u[|u| - 1] == s[|s| - 2];
        AdjacentIncreasingAppend(u, [s[|s| - 1]]);
      }
    }
  }

  /** sort followed by unique: the distinct elements, strictly increasing. */
  lemma SortUnique(s: seq<string>)
    ensures StrictlySorted(Unique(Sort(s)))
    ensures forall x :: x in Unique(Sort(s)) <==> x in s
  {
    var t := Sort(s);
    UniqueIncreasing(t);
    AdjacentIncreasingIsStrictlySorted(Unique(t));
    UniqueElements(t);
    forall x ensures x in t <==> x in s {
      assert x in t <==> x in multiset(t);
      assert x in s <==> x in multiset(s);
    }
  }

  /** merge followed by unique on ordered lists: the distinct elements of
      both, strictly increasing. */
  lemma MergeUnique(a: seq<string>, b: seq<string>)
    requires AdjacentOrdered(a) && AdjacentOrdered(b)
    ensures StrictlySorted(Unique(Merge(a, b)))
    ensures forall x :: x in Unique(Merge(a, b)) <==> x in a || x in b
  {
    var m := Merge(a, b);
    UniqueIncreasing(m);
    AdjacentIncreasingIsStrictlySorted(Unique(m));
    UniqueElements(m);
    forall x ensures x in m <==> x in a || x in b {
      assert x in m <==> x in multiset(m);
      assert x in a <==> x in multiset(a);
      assert x in b <==> x in multiset(b);
    }
  }

  /** A strictly sorted list is determined by its elements: whichever way
      the sort is carried out, sort and unique give the same list. */
  lemma {:induction false} StrictlySortedUnique(s: seq<string>, t: seq<string>)
    requires StrictlySorted(s) && StrictlySorted(t)
    requires forall x :: x in s <==> x in t
    ensures s == t
    decreases |s|
  {
    if |s| > 0 {
      assert s[0] in t;
    }
    if |t| > 0 {
      assert t[0] in s;
    }
    if |s| > 0 && |t| > 0 {
      // The first elements are both the least element.
      if s[0] != t[0] {
        assert t[0] in s;
        assert s[0] in t;
        var i :| 0 <= i < |s| && s[i] == t[0];
        var j :| 0 <= j < |t| && t[j] == s[0];
        assert i > 0 && j > 0;
        LessAsymmetric(s[0], s[i]);
      }
      var s1, t1 := s[1..], t[1..];
      forall x ensures x in s1 <==> x in t1 {
        if x in s1 {
          var i :| 0 <= i < |s1| && s1[i] == x;
          assert Less(s[0], s[i + 1]);
          LessIrreflexive(x);
          assert x in t;
          var j :| 0 <= j < |t| && t[j] == x;
          assert j != 0;
          assert t1[j - 1] == x;
        }
        if x in t1 {
          var j :| 0 <= j < |t1| && t1[j] == x;
          assert Less(t[0], t[j + 1]);
          LessIrreflexive(x);
          assert x in s;
          var i :| 0 <= i < |s| && s[i] == x;
          assert i != 0;
          assert s1[i - 1] == x;
        }
      }
      StrictlySortedUnique(s1, t1);
      assert s == [s[0]] + s1 && t == [t[0]] + t1;
    }
  }
}
