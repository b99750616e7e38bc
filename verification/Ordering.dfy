/** Sorting and order statistics over integers. */
module Ordering {

  ghost predicate Ascending(s: seq<int>) {
    forall i, j :: 0 <= i < j < |s| ==> s[i] <= s[j]
  }

  /** The number of elements strictly below `m`. */
  ghost function Below(s: seq<int>, m: int): (n: nat)
    ensures n <= |s|
  {
    if s == [] then 0 else (if s[0] < m then 1 else 0) + Below(s[1..], m)
  }

  function Insert(x: int, s: seq<int>): (t: seq<int>)
    ensures |t| == |s| + 1
    ensures multiset(t) == multiset(s) + multiset{x}
  {
    if s == [] || x <= s[0] then [x] + s
    else
      assert s == [s[0]] + s[1..];
      [s[0]] + Insert(x, s[1..])
  }

  lemma {:induction false} InsertAscending(x: int, s: seq<int>)
    requires Ascending(s)
    ensures Ascending(Insert(x, s))
  {
    if s != [] && x > s[0] {
      InsertAscending(x, s[1..]);
      var rest := Insert(x, s[1..]);
      forall i | 0 <= i < |rest| ensures s[0] <= rest[i] {
        assert rest[i] in multiset(s[1..]) + multiset{x};
      }
    }
  }

  /** The ascending rearrangement of `s`. */
  function Sort(s: seq<int>): (t: seq<int>)
    ensures |t| == |s|
    ensures multiset(t) == multiset(s)
    ensures Ascending(t)
  {
    if s == [] then []
    else
      assert s == [s[0]] + s[1..];
      InsertAscending(s[0], Sort(s[1..]));
      Insert(s[0], Sort(s[1..]))
  }

  lemma {:induction false} BelowConcat(a: seq<int>, b: seq<int>, m: int)
    ensures Below(a + b, m) == Below(a, m) + Below(b, m)
  {
    if a == [] {
      assert a + b == b;
    } else {
      assert (a + b)[1..] == a[1..] + b;
      BelowConcat(a[1..], b, m);
    }
  }

  lemma BelowWithout(t: seq<int>, i: nat, m: int)
    requires i < |t|
    ensures var u := t[..i] + t[i + 1..];
      && multiset(t) == multiset(u) + multiset{t[i]}
      && Below(t, m) == Below(u, m) + if t[i] < m then 1 else 0
  {
    assert t == t[..i] + ([t[i]] + t[i + 1..]);
    BelowConcat(t[..i], [t[i]] + t[i + 1..], m);
    BelowConcat(t[..i], t[i + 1..], m);
    assert ([t[i]] + t[i + 1..])[1..] == t[i + 1..];
  }

  lemma CancelOne(a: multiset<int>, b: multiset<int>, x: int)
    requires a + multiset{x} == b + multiset{x}
    ensures a == b
  {
    assert a == (a + multiset{x}) - multiset{x};
    assert b == (b + multiset{x}) - multiset{x};
  }

  /** `Below` depends only on which values occur and how often. */
  lemma {:induction false} BelowOfPermutation(s: seq<int>, t: seq<int>, m: int)
    requires multiset(s) == multiset(t)
    ensures Below(s, m) == Below(t, m)
  {
    if s == [] {
      assert |multiset(t)| == 0;
    } else {
      BelowWithout(s, 0, m);
      assert s[..0] + s[1..] == s[1..];
      assert s[0] in multiset(t);
      var i :| 0 <= i < |t| && t[i] == s[0];
      BelowWithout(t, i, m);
      var u := t[..i] + t[i + 1..];
      CancelOne(multiset(s[1..]), multiset(u), s[0]);
      BelowOfPermutation(s[1..], u, m);
    }
  }

  /** In an ascending sequence the elements below `m` come first, then those equal to `m`. */
  lemma {:induction false} AscendingLayout(t: seq<int>, m: int, k: nat)
    requires Ascending(t) && k < |t|
    ensures t[k] < m <==> k < Below(t, m)
    ensures t[k] == m <==> Below(t, m) <= k < Below(t, m) + multiset(t)[m]
  {
    assert t == [t[0]] + t[1..];
    if t[0] < m {
      if k > 0 { AscendingLayout(t[1..], m, k - 1); }
    } else {
      NoneBelow(t, m);
      if t[0] == m {
        if k > 0 {
          NoneBelow(t[1..], m);
          AscendingLayout(t[1..], m, k - 1);
        }
      } else {
        assert m !in multiset(t);
      }
    }
  }

  lemma {:induction false} NoneBelow(t: seq<int>, m: int)
    requires forall i :: 0 <= i < |t| ==> t[i] >= m
    ensures Below(t, m) == 0
  {
    if t != [] { NoneBelow(t[1..], m); }
  }

  /** The k-th smallest value, told by ranks alone: `m` sits at index k of the sorted sequence exactly
      when at most k values lie below it and more than k lie at or below it. */
  lemma SelectByRank(s: seq<int>, k: nat, m: int)
    requires k < |s|
    ensures Sort(s)[k] == m <==> Below(s, m) <= k < Below(s, m) + multiset(s)[m]
  {
    BelowOfPermutation(s, Sort(s), m);
    AscendingLayout(Sort(s), m, k);
  }

  /** Every ascending permutation is the one `Sort` gives, so any sorting routine may stand for it. */
  lemma SortIsUnique(s: seq<int>, t: seq<int>)
    requires Ascending(t) && multiset(t) == multiset(s)
    ensures t == Sort(s)
  {
    assert |t| == |multiset(t)| == |s|;
    forall k | 0 <= k < |t| ensures t[k] == Sort(s)[k] {
      BelowOfPermutation(s, t, t[k]);
      AscendingLayout(t, t[k], k);
      SelectByRank(s, k, t[k]);
    }
  }

  /** Moving `m` up past a gap: with nothing strictly between, the rank grows by the multiplicity. */
  lemma {:induction false} BelowAcrossGap(s: seq<int>, lo: int, hi: int)
    requires lo < hi
    requires forall x :: x in s ==> x <= lo || x >= hi
    ensures Below(s, hi) == Below(s, lo) + multiset(s)[lo]
  {
    if s != [] {
      assert s == [s[0]] + s[1..];
      assert s[0] in s && forall x :: x in s[1..] ==> x in s;
      BelowAcrossGap(s[1..], lo, hi);
    }
  }

  lemma {:induction false} SomeBelow(s: seq<int>, m: int)
    requires Below(s, m) > 0
    ensures exists x :: x in s && x < m
  {
    if s[0] < m {
      assert s[0] in s;
    } else {
      SomeBelow(s[1..], m);
      var x :| x in s[1..] && x < m;
      assert x in s;
    }
  }

  /** If the values at or below `m` are not all of `s`, some value lies above `m`. */
  lemma {:induction false} SomeAbove(s: seq<int>, m: int)
    requires Below(s, m) + multiset(s)[m] < |s|
    ensures exists x :: x in s && x > m
  {
    assert s == [s[0]] + s[1..];
    if s[0] > m {
      assert s[0] in s;
    } else {
      SomeAbove(s[1..], m);
      var x :| x in s[1..] && x > m;
      assert x in s;
    }
  }
}
