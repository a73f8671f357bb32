/** Comparing lists of strings without regard to order: by sorting (pkg/utils/list.go) and by marking
    (api/nsp/v1/utils.go). */
module StringLists {

  // ---------- the order of strings ----------

  predicate LessEq(a: string, b: string)
  {
    |a| == 0 || (|b| > 0 && (a[0] < b[0] || (a[0] == b[0] && LessEq(a[1..], b[1..]))))
  }

  lemma {:induction false} LessEqTotal(a: string, b: string)
    ensures LessEq(a, b) || LessEq(b, a)
    ensures LessEq(a, b) && LessEq(b, a) ==> a == b
  {
    if |a| > 0 && |b| > 0 {
      LessEqTotal(a[1..], b[1..]);
      assert a == [a[0]] + a[1..] && b == [b[0]] + b[1..];
    }
  }

  lemma {:induction false} LessEqTransitive(a: string, b: string, c: string)
    requires LessEq(a, b) && LessEq(b, c)
    ensures LessEq(a, c)
  {
    if |a| > 0 && a[0] == b[0] && b[0] == c[0] {
      LessEqTransitive(a[1..], b[1..], c[1..]);
    }
  }

  ghost predicate Sorted(s: seq<string>)
  {
    forall i, j :: 0 <= i < j < |s| ==> LessEq(s[i], s[j])
  }

  lemma SizeOf(s: seq<string>)
    ensures |multiset(s)| == |s|
  {
  }

  lemma TailOf(s: seq<string>)
    requires |s| > 0
    ensures multiset(s[1..]) == multiset(s) - multiset{s[0]} && s[0] in multiset(s)
  {
    assert s == [s[0]] + s[1..];
  }

  lemma SameFirst(s: seq<string>, t: seq<string>)
    requires Sorted(s) && Sorted(t) && multiset(s) == multiset(t) && |s| > 0 && |t| > 0
    ensures s[0] == t[0]
  {
    TailOf(s);
    TailOf(t);
    FirstIsLeast(s, t[0]);
    FirstIsLeast(t, s[0]);
    LessEqTotal(s[0], t[0]);
  }

  /** Two sorted lists of the same strings are the same list. */
  lemma {:induction false} SortedUnique(s: seq<string>, t: seq<string>)
    requires Sorted(s) && Sorted(t) && multiset(s) == multiset(t)
    ensures s == t
  {
    SizeOf(s);
    SizeOf(t);
    if |s| > 0 {
      SameFirst(s, t);
      TailOf(s);
      TailOf(t);
      SortedUnique(s[1..], t[1..]);
      assert s == [s[0]] + s[1..] && t == [t[0]] + t[1..];
    }
  }

  lemma FirstIsLeast(s: seq<string>, x: string)
    requires Sorted(s) && |s| > 0 && x in multiset(s)
    ensures LessEq(s[0], x)
  {
    LessEqTotal(x, x);
    var i :| 0 <= i < |s| && s[i] == x;
  }

  /** Sorting in place, as the library's sort promises: ordered, and a permutation of what was there. */
  method Sort(a: array<string>)
    modifies a
    ensures Sorted(a[..]) && multiset(a[..]) == multiset(old(a[..]))
  {
    for i := 0 to a.Length
      invariant Sorted(a[..i]) && multiset(a[..]) == multiset(old(a[..]))
    {
      Insert(a, i);
    }
    assert a[..a.Length] == a[..];
  }

  /** Ordered up to `i`, leaving out position `j`, whose string belongs before everything after it. */
  ghost predicate OrderedAround(s: seq<string>, i: nat, j: nat)
    requires j <= i < |s|
  {
    && (forall k, l :: 0 <= k < l <= i && k != j && l != j ==> LessEq(s[k], s[l]))
    && (forall l :: j < l <= i ==> LessEq(s[j], s[l]))
  }

  lemma SwapDown(s: seq<string>, i: nat, j: nat)
    requires 0 < j <= i < |s| && OrderedAround(s, i, j) && !LessEq(s[j - 1], s[j])
    ensures OrderedAround(s[j - 1 := s[j]][j := s[j - 1]], i, j - 1)
  {
    LessEqTotal(s[j - 1], s[j]);
  }

  lemma InPlace(s: seq<string>, i: nat, j: nat)
    requires j <= i < |s| && OrderedAround(s, i, j) && (j > 0 ==> LessEq(s[j - 1], s[j]))
    ensures Sorted(s[..i + 1])
  {
    forall k, l | 0 <= k < l <= i ensures LessEq(s[k], s[l]) {
      if l == j && k < j - 1 {
        LessEqTransitive(s[k], s[j - 1], s[j]);
      }
    }
  }

  method Insert(a: array<string>, i: nat)
    requires i < a.Length && Sorted(a[..i])
    modifies a
    ensures Sorted(a[..i + 1]) && multiset(a[..]) == multiset(old(a[..]))
  {
    var j := i;
    assert forall k, l :: 0 <= k < l < i ==> LessEq(a[..i][k], a[..i][l]);
    while j > 0 && !LessEq(a[j - 1], a[j])
      invariant 0 <= j <= i && multiset(a[..]) == multiset(old(a[..]))
      invariant OrderedAround(a[..], i, j)
    {
      SwapDown(a[..], i, j);
      ghost var s := a[..];
      a[j - 1], a[j] := a[j], a[j - 1];
      assert a[..] == s[j - 1 := s[j]][j := s[j - 1]];
      j := j - 1;
    }
    InPlace(a[..], i, j);
    assert a[..][..i + 1] == a[..i + 1];
  }

  /** Equal after sorting means: the same strings, each as often. */
  method EqualStringList(a: seq<string>, b: seq<string>) returns (equal: bool)
    ensures equal <==> multiset(a) == multiset(b)
  {
    if |a| != |b| {
      assert |multiset(a)| != |multiset(b)|;
      return false;
    }
    var tmpa := new string[|a|](i requires 0 <= i < |a| => a[i]);
    var tmpb := new string[|b|](i requires 0 <= i < |b| => b[i]);
    assert tmpa[..] == a && tmpb[..] == b;
    Sort(tmpa);
    Sort(tmpb);
    if multiset(a) == multiset(b) {
      SortedUnique(tmpa[..], tmpb[..]);
    }
    for i := 0 to tmpa.Length
      invariant tmpa[..i] == tmpb[..i]
    {
      if tmpa[i] != tmpb[i] {
        assert tmpa[..][i] != tmpb[..][i];
        return false;
      }
    }
    assert tmpa[..] == tmpb[..];
    equal := true;
  }

  // ---------- marking ----------

  ghost function Items(s: seq<string>): set<string> { set x | x in s }

  ghost predicate NoDuplicates(s: seq<string>)
  {
    forall i, j :: 0 <= i < j < |s| ==> s[i] != s[j]
  }

  /** compareSlice does not count: it holds when the lengths agree and the same strings occur. */
  method CompareSlice(a: seq<string>, b: seq<string>) returns (equal: bool)
    ensures equal <==> |a| == |b| && Items(a) == Items(b)
  {
    if |a| != |b| {
      return false;
    }
    if |a| == 0 {
      return true;
    }
    var m: map<string, bool> := map[];
    for i := 0 to |b|
      invariant m.Keys == Items(b[..i]) && forall x :: x in m ==> m[x]
    {
      assert b[..i + 1] == b[..i] + [b[i]];
      m := m[b[i] := true];
    }
    assert b[..|b|] == b;
    for i := 0 to |a|
      invariant m.Keys == Items(b) && Items(a[..i]) <= Items(b)
      invariant forall x :: x in m ==> (m[x] <==> x !in a[..i])
    {
      assert a[..i + 1] == a[..i] + [a[i]];
      if a[i] !in m {
        assert a[i] in Items(a) && a[i] !in Items(b);
        return false;
      }
      m := m[a[i] := false];
    }
    assert a[..|a|] == a;
    var left := m.Keys;
    while left != {}
      invariant left <= m.Keys && forall x :: x in m && x !in left ==> !m[x]
    {
      var x :| x in left;
      if m[x] {
        assert x in Items(b) && x !in Items(a);
        return false;
      }
      left := left - {x};
    }
    assert forall x :: x in Items(b) ==> x in m && !m[x];
    equal := true;
  }

  lemma {:induction false} DuplicateFreeCounts(s: seq<string>, x: string)
    requires NoDuplicates(s)
    ensures multiset(s)[x] == if x in s then 1 else 0
  {
    if |s| > 0 {
      var n := |s| - 1;
      DuplicateFreeCounts(s[..n], x);
      assert s == s[..n] + [s[n]];
    }
  }

  lemma {:induction false} ItemCount(s: seq<string>)
    ensures |Items(s)| <= |s| && (|Items(s)| == |s| <==> NoDuplicates(s))
  {
    if |s| > 0 {
      var n := |s| - 1;
      ItemCount(s[..n]);
      assert s == s[..n] + [s[n]];
      assert Items(s) == Items(s[..n]) + {s[n]};
      if s[n] in s[..n] {
        assert Items(s) == Items(s[..n]);
        var i :| 0 <= i < n && s[i] == s[n];
        assert !NoDuplicates(s);
      } else {
        assert NoDuplicates(s) <==> NoDuplicates(s[..n]);
      }
    }
  }

  lemma PermutationsLookAlike(a: seq<string>, b: seq<string>)
    requires multiset(a) == multiset(b)
    ensures |a| == |b| && Items(a) == Items(b)
  {
    assert |multiset(a)| == |a| && |multiset(b)| == |b|;
    forall x ensures x in Items(a) <==> x in Items(b) {
      assert x in multiset(a) <==> x in multiset(b);
    }
  }

  /** When one of the lists is free of duplicates, both comparisons agree. */
  lemma ComparisonsAgree(a: seq<string>, b: seq<string>)
    requires NoDuplicates(a)
    ensures multiset(a) == multiset(b) <==> |a| == |b| && Items(a) == Items(b)
  {
    if multiset(a) == multiset(b) {
      PermutationsLookAlike(a, b);
    } else if |a| == |b| && Items(a) == Items(b) {
      ItemCount(a);
      ItemCount(b);
      forall x ensures multiset(a)[x] == multiset(b)[x] {
        DuplicateFreeCounts(a, x);
        DuplicateFreeCounts(b, x);
        assert x in Items(a) <==> x in Items(b);
      }
      assert false;
    }
  }

  lemma {:induction false} AllAlike(s: seq<string>, x: string)
    requires forall i :: 0 <= i < |s| ==> s[i] == x
    ensures multiset(s) == multiset{}[x := |s|]
  {
    if |s| > 0 {
      var n := |s| - 1;
      AllAlike(s[..n], x);
      assert s == s[..n] + [s[n]];
    }
  }

  /** Lists of one repeated string cannot be mistaken for each other either. */
  lemma OneItem(a: seq<string>, b: seq<string>)
    requires |Items(a)| <= 1 && |a| == |b| && Items(a) == Items(b)
    ensures multiset(a) == multiset(b)
  {
    if |a| > 0 {
      var x := a[0];
      forall i | 0 <= i < |a| ensures a[i] == x && b[i] == x {
        assert b[i] in Items(b);
        OneOrNone(Items(a), x, a[i]);
        OneOrNone(Items(a), x, b[i]);
      }
      AllAlike(a, x);
      AllAlike(b, x);
    } else {
      assert a == b;
    }
  }

  lemma OneOrNone(s: set<string>, x: string, y: string)
    requires |s| <= 1 && x in s && y in s
    ensures x == y
  {
    var rest := s - {x};
    assert |rest| == 0;
    assert y !in rest;
  }

  /** Writing another string over one of two copies changes the counts, not the set of strings. */
  lemma Overwritten(a: seq<string>, i: nat, j: nat, k: nat)
    requires i < j < |a| && a[i] == a[j] && k < |a| && a[k] != a[i]
    ensures var b := a[j := a[k]]; |a| == |b| && Items(a) == Items(b) && multiset(a) != multiset(b)
  {
    var b := a[j := a[k]];
    forall x ensures x in a <==> x in b {
      if x in a {
        var m :| 0 <= m < |a| && a[m] == x;
        assert b[if m == j then i else m] == x;
      }
    }
    assert multiset(b) == multiset(a)[a[j] := multiset(a)[a[j]] - 1][a[k] := multiset(a)[a[k]] + 1];
  }

  /** compareSlice tells a list from every list that is no permutation of it, if and only if no string occurs twice
      in it or no two strings occur. */
  lemma ComparisonsAgreeOn(a: seq<string>)
    ensures (forall b :: |a| == |b| && Items(a) == Items(b) ==> multiset(a) == multiset(b)) <==>
            NoDuplicates(a) || |Items(a)| <= 1
  {
    if NoDuplicates(a) || |Items(a)| <= 1 {
      forall b | |a| == |b| && Items(a) == Items(b) ensures multiset(a) == multiset(b) {
        if NoDuplicates(a) {
          ComparisonsAgree(a, b);
        } else {
          OneItem(a, b);
        }
      }
    } else {
      var i, j :| 0 <= i < j < |a| && a[i] == a[j];
      var k := Another(a, i);
      Overwritten(a, i, j, k);
    }
  }

  lemma Another(a: seq<string>, i: nat) returns (k: nat)
    requires i < |a| && |Items(a)| > 1
    ensures k < |a| && a[k] != a[i]
  {
    var rest := Items(a) - {a[i]};
    assert |rest| == |Items(a)| - 1;
    var x :| x in rest;
    k :| 0 <= k < |a| && a[k] == x;
  }

  /** With duplicates they do not: marking cannot tell these lists apart. */
  lemma ComparisonsDiffer()
    ensures var a, b := ["x", "x", "y"], ["x", "y", "y"];
            |a| == |b| && Items(a) == Items(b) && multiset(a) != multiset(b)
  {
    var a, b := ["x", "x", "y"], ["x", "y", "y"];
    assert "x"[0] != "y"[0];
    assert multiset(a)["x"] == 2 && multiset(b)["x"] == 1;
    forall s ensures s in a <==> s in b {
      assert a[0] == "x" && a[2] == "y" && b[0] == "x" && b[1] == "y";
    }
  }
}
