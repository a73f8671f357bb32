/** nftables interval sets: what a set of start and end elements represents, and what a batch of
    deletions and additions does to it. */
module IntervalSets {
  import opened Addresses
  import opened Lists

  /** One set element: the first address of an interval, or the address after its last. */
  datatype Element = Element(key: Bytes, intervalEnd: bool)

  /** A batch as the nftables connection queues it: all deletions come before all additions. */
  datatype Batch = Batch(deletes: seq<Element>, adds: seq<Element>)

  predicate Distinct<T(==)>(s: seq<T>)
  {
    forall i, j :: 0 <= i < j < |s| ==> s[i] != s[j]
  }

  function Members<T(==)>(s: seq<T>): set<T> { set x | x in s }

  /** The kernel applies a batch as one transaction: it refuses all of it when an element to delete is
      missing, also when the batch itself has deleted it already. */
  predicate Applies(kernel: set<Element>, b: Batch)
  {
    Distinct(b.deletes) && Members(b.deletes) <= kernel
  }

  function Apply(kernel: set<Element>, b: Batch): set<Element>
  {
    if Applies(kernel, b) then kernel - Members(b.deletes) + Members(b.adds) else kernel
  }

  /** Lookup in an interval set: some interval starts at or before `a` and is not closed up to `a`. */
  ghost predicate Represents(kernel: set<Element>, a: Bytes)
  {
    exists s :: s in kernel && !s.intervalEnd && Value(s.key) <= Value(a) && !ClosedBetween(kernel, s.key, a)
  }

  ghost predicate ClosedBetween(kernel: set<Element>, start: Bytes, a: Bytes)
  {
    exists e :: e in kernel && e.intervalEnd && Value(start) < Value(e.key) <= Value(a)
  }

  /** The two elements a prefix contributes. */
  function ElementsOf(p: Prefix): (r: seq<Element>)
    ensures |r| == 2
  {
    [Element(p.ip, false), Element(EndOf(p), true)]
  }

  function Flatten(ps: seq<Prefix>): (r: seq<Element>)
  {
    if |ps| == 0 then [] else Flatten(ps[..|ps| - 1]) + ElementsOf(ps[|ps| - 1])
  }

  ghost predicate Disjoint(p: Prefix, q: Prefix)
  {
    forall a: Bytes :: !(p.Contains(a) && q.Contains(a))
  }

  /** Canonical prefixes of one width, no address in two of them. */
  ghost predicate PairwiseDisjoint(ps: seq<Prefix>, width: nat)
  {
    && (forall i :: 0 <= i < |ps| ==> ps[i].Canonical() && |ps[i].ip| == width)
    && (forall i, j :: 0 <= i < j < |ps| ==> Disjoint(ps[i], ps[j]))
  }

  ghost predicate Covers(ps: seq<Prefix>, a: Bytes)
  {
    exists p :: p in ps && p.Contains(a)
  }

  /** Items of `a` missing from `b`, in order. */
  function Minus<T(==,!new)>(a: seq<T>, b: seq<T>): (r: seq<T>)
    ensures forall x :: x in r <==> x in a && x !in b
  {
    if |a| == 0 then []
    else Minus(a[..|a| - 1], b) + (if a[|a| - 1] in b then [] else [a[|a| - 1]])
  }

  lemma {:induction false} MinusAll<T(!new)>(a: seq<T>, b: seq<T>)
    requires forall i :: 0 <= i < |a| ==> a[i] in b
    ensures Minus(a, b) == []
  {
    if |a| > 0 {
      MinusAll(a[..|a| - 1], b);
    }
  }

  lemma {:induction false} MinusInOrder<T(!new)>(a: seq<T>, b: seq<T>)
    ensures Subsequence(Minus(a, b), a)
  {
    if |a| > 0 {
      var n := |a| - 1;
      MinusInOrder(a[..n], b);
      assert a == a[..n] + [a[n]];
      SubsequenceOneMore(Minus(a[..n], b), a[..n], a[n], a[n] !in b);
    }
  }

  /** stringArrayDiff: the second list goes into a map, the first is filtered through it. */
  method StringArrayDiff<T(==,!new)>(a: seq<T>, b: seq<T>) returns (diff: seq<T>)
    ensures diff == Minus(a, b)
  {
    diff := [];
    var bMap: set<T> := {};
    for i := 0 to |b|
      invariant bMap == set x | x in b[..i]
    {
      assert b[..i + 1] == b[..i] + [b[i]];
      bMap := bMap + {b[i]};
    }
    assert b[..|b|] == b;
    for i := 0 to |a|
      invariant diff == Minus(a[..i], b)
    {
      assert a[..i + 1][..i] == a[..i];
      if a[i] !in bMap {
        diff := diff + [a[i]];
      }
    }
    assert a[..|a|] == a;
  }

  // ---------- membership ----------

  lemma {:induction false} InFlatten(ps: seq<Prefix>, e: Element)
    ensures e in Flatten(ps) <==> exists p :: p in ps && e in ElementsOf(p)
  {
    if |ps| > 0 {
      var n := |ps| - 1;
      InFlatten(ps[..n], e);
      assert ps == ps[..n] + [ps[n]];
      assert e in ElementsOf(ps[n]) ==> ps[n] in ps;
      assert forall p :: p in ps <==> p in ps[..n] || p == ps[n];
    }
  }

  /** Disjoint prefixes share no element, so deleting one leaves the other's two elements alone. */
  lemma ElementsDisjoint(p: Prefix, q: Prefix)
    requires p.Canonical() && q.Canonical() && |p.ip| == |q.ip| && Disjoint(p, q)
    ensures forall e :: !(e in ElementsOf(p) && e in ElementsOf(q))
    ensures p != q
  {
    BroadcastValue(p);
    BroadcastValue(q);
    if EndOf(p) == EndOf(q) {
      NextOfInjective(BroadcastOf(p), BroadcastOf(q));
      assert false;
    }
  }

  /** The elements of disjoint prefixes represent exactly the addresses of those prefixes. */
  lemma FlattenRepresents(ps: seq<Prefix>, width: nat, a: Bytes)
    requires PairwiseDisjoint(ps, width) && |a| == width
    ensures Represents(Members(Flatten(ps)), a) <==> Covers(ps, a)
  {
    var k := Members(Flatten(ps));
    if Covers(ps, a) {
      var p :| p in ps && p.Contains(a);
      StartOpensPrefix(ps, width, p, a);
    }
    if Represents(k, a) {
      var s :| s in k && !s.intervalEnd && Value(s.key) <= Value(a) && !ClosedBetween(k, s.key, a);
      InFlatten(ps, s);
      var p :| p in ps && s in ElementsOf(p);
      var e := Element(EndOf(p), true);
      assert e in ElementsOf(p);
      InFlatten(ps, e);
      EndOfCloses(p, a);
      EndOfValue(p);
    }
  }

  /** An interval that ends inside a prefix has its last address inside it too. */
  lemma EndsInside(p: Prefix, q: Prefix, a: Bytes)
    requires p.Canonical() && q.Canonical() && |p.ip| == |q.ip| && p.Contains(a)
    requires Value(p.ip) < Value(EndOf(q)) <= Value(a)
    ensures p != q && !Disjoint(p, q)
  {
    EndOfValue(q);
    ValueBound(p.ip);
    BroadcastValue(q);
    ContainsIsInterval(p, a);
    ContainsIsInterval(p, BroadcastOf(q));
  }

  lemma StartOpensPrefix(ps: seq<Prefix>, width: nat, p: Prefix, a: Bytes)
    requires PairwiseDisjoint(ps, width) && p in ps && p.Contains(a)
    ensures Represents(Members(Flatten(ps)), a)
  {
    var k := Members(Flatten(ps));
    var s := Element(p.ip, false);
    assert s in k by {
      assert s in ElementsOf(p);
      InFlatten(ps, s);
    }
    assert Value(p.ip) <= Value(a) by {
      ContainsIsInterval(p, a);
    }
    forall e | e in k && e.intervalEnd ensures !(Value(p.ip) < Value(e.key) <= Value(a)) {
      NoEndInside(ps, width, p, a, e);
    }
  }

  lemma NoEndInside(ps: seq<Prefix>, width: nat, p: Prefix, a: Bytes, e: Element)
    requires PairwiseDisjoint(ps, width) && p in ps && p.Contains(a) && e in Flatten(ps) && e.intervalEnd
    ensures !(Value(p.ip) < Value(e.key) <= Value(a))
  {
    InFlatten(ps, e);
    var q :| q in ps && e in ElementsOf(q);
    SameOrDisjoint(ps, width, p, q);
    if Value(p.ip) < Value(EndOf(q)) <= Value(a) {
      EndsInside(p, q, a);
      assert false;
    }
  }

  lemma SameOrDisjoint(ps: seq<Prefix>, width: nat, p: Prefix, q: Prefix)
    requires PairwiseDisjoint(ps, width) && p in ps && q in ps
    ensures p == q || Disjoint(p, q)
  {
    var i, j :| 0 <= i < |ps| && 0 <= j < |ps| && ps[i] == p && ps[j] == q;
    if i < j {
      assert Disjoint(ps[i], ps[j]);
    } else if j < i {
      assert Disjoint(ps[j], ps[i]);
    }
  }

  // ---------- replacing one list of prefixes by another ----------

  lemma DistinctAppend<T>(s: seq<T>, t: seq<T>)
    requires Distinct(s) && Distinct(t) && forall x :: x in t ==> x !in s
    ensures Distinct(s + t)
  {
    forall i, j | 0 <= i < j < |s + t| ensures (s + t)[i] != (s + t)[j] {
      if i < |s| <= j {
        assert t[j - |s|] in t && s[i] in s;
      }
    }
  }

  lemma {:induction false} FlattenDistinct(ps: seq<Prefix>, width: nat)
    requires PairwiseDisjoint(ps, width)
    ensures Distinct(Flatten(ps))
  {
    if |ps| > 0 {
      var n := |ps| - 1;
      FlattenDistinct(ps[..n], width);
      forall e | e in ElementsOf(ps[n]) ensures e !in Flatten(ps[..n]) {
        InFlatten(ps[..n], e);
        forall i | 0 <= i < n ensures e !in ElementsOf(ps[i]) {
          ElementsDisjoint(ps[i], ps[n]);
        }
      }
      DistinctAppend(Flatten(ps[..n]), ElementsOf(ps[n]));
    }
  }

  lemma DisjointAppend(ps: seq<Prefix>, p: Prefix, width: nat)
    ensures PairwiseDisjoint(ps + [p], width) <==>
            PairwiseDisjoint(ps, width) && p.Canonical() && |p.ip| == width && forall q :: q in ps ==> Disjoint(q, p)
  {
    var r := ps + [p];
    assert forall i :: 0 <= i < |ps| ==> r[i] == ps[i];
    if PairwiseDisjoint(r, width) {
      assert r[|ps|] == p;
      forall q | q in ps ensures Disjoint(q, p) {
        var i :| 0 <= i < |ps| && ps[i] == q;
        assert Disjoint(r[i], r[|ps|]);
      }
      forall i, j | 0 <= i < j < |ps| ensures Disjoint(ps[i], ps[j]) {
        assert Disjoint(r[i], r[j]);
      }
    }
  }

  lemma {:induction false} MinusKeepsDisjoint(ps: seq<Prefix>, qs: seq<Prefix>, width: nat)
    requires PairwiseDisjoint(ps, width)
    ensures PairwiseDisjoint(Minus(ps, qs), width)
  {
    if |ps| > 0 {
      var n := |ps| - 1;
      var r := Minus(ps[..n], qs);
      assert ps == ps[..n] + [ps[n]];
      DisjointAppend(ps[..n], ps[n], width);
      MinusKeepsDisjoint(ps[..n], qs, width);
      if ps[n] in qs {
        assert Minus(ps, qs) == r;
      } else {
        DisjointAppend(r, ps[n], width);
      }
    }
  }

  lemma GoneApplies(before: seq<Prefix>, gone: seq<Prefix>, adds: seq<Element>, width: nat)
    requires PairwiseDisjoint(gone, width) && forall p :: p in gone ==> p in before
    ensures Applies(Members(Flatten(before)), Batch(Flatten(gone), adds))
  {
    FlattenDistinct(gone, width);
    forall e | e in Flatten(gone) ensures e in Flatten(before) {
      InFlatten(gone, e);
      InFlatten(before, e);
    }
  }

  /** Deleting the elements of `gone` and adding those of `more` turns the elements of `before` into those of
      `after`, when `more` completes what is left of `before` to `after`. */
  lemma ReplaceElements(before: seq<Prefix>, after: seq<Prefix>, gone: seq<Prefix>, more: seq<Prefix>, width: nat)
    requires PairwiseDisjoint(before, width) && PairwiseDisjoint(gone, width)
    requires forall p :: p in gone ==> p in before
    requires forall p :: p in after <==> (p in before && p !in gone) || p in more
    ensures var b := Batch(Flatten(gone), Flatten(more));
            var kernel := Members(Flatten(before));
            Applies(kernel, b) && Apply(kernel, b) == Members(Flatten(after))
  {
    GoneApplies(before, gone, Flatten(more), width);
    var a, d, m, r := Flatten(before), Flatten(gone), Flatten(more), Flatten(after);
    forall e ensures (e in a && e !in d) || e in m <==> e in r {
      AfterElement(before, after, gone, more, width, e);
    }
    assert Members(a) - Members(d) + Members(m) == Members(r);
  }

  lemma AfterElement(before: seq<Prefix>, after: seq<Prefix>, gone: seq<Prefix>, more: seq<Prefix>, width: nat,
                     e: Element)
    requires PairwiseDisjoint(before, width) && forall p :: p in gone ==> p in before
    requires forall p :: p in after <==> (p in before && p !in gone) || p in more
    ensures (e in Flatten(before) && e !in Flatten(gone)) || e in Flatten(more) <==> e in Flatten(after)
  {
    LeftElement(before, gone, width, e);
    InFlatten(more, e);
    InFlatten(after, e);
    if p: Prefix :| p in after && e in ElementsOf(p) {
      assert (p in before && p !in gone) || p in more;
    }
  }

  /** Deleting some of the prefixes leaves exactly the elements of the others. */
  lemma LeftElement(before: seq<Prefix>, gone: seq<Prefix>, width: nat, e: Element)
    requires PairwiseDisjoint(before, width) && forall p :: p in gone ==> p in before
    ensures e in Flatten(before) && e !in Flatten(gone) <==> exists p :: p in before && p !in gone && e in ElementsOf(p)
  {
    InFlatten(before, e);
    InFlatten(gone, e);
    if p: Prefix :| p in before && p !in gone && e in ElementsOf(p) {
      forall q | q in gone ensures e !in ElementsOf(q) {
        SameOrDisjoint(before, width, p, q);
        ElementsDisjoint(p, q);
      }
    }
  }

  /** From a kernel set holding exactly the elements of `before`, the batch that deletes what only `before` has and
      adds what only `after` has is accepted and leaves exactly the elements of `after`. */
  lemma ReplaceApplies(before: seq<Prefix>, after: seq<Prefix>, width: nat)
    requires PairwiseDisjoint(before, width)
    ensures var b := Batch(Flatten(Minus(before, after)), Flatten(Minus(after, before)));
            var kernel := Members(Flatten(before));
            Applies(kernel, b) && Apply(kernel, b) == Members(Flatten(after))
  {
    MinusKeepsDisjoint(before, after, width);
    ReplaceElements(before, after, Minus(before, after), Minus(after, before), width);
  }

  // ---------- lists of texts ----------

  /** The networks of the usable texts of one family, in order. */
  function Networks(ips: seq<CidrText>, width: nat): (r: seq<Prefix>)
  {
    if |ips| == 0 then []
    else
      var n := |ips| - 1;
      Networks(ips[..n], width) + (if Usable(ips[n], width) then [ips[n].prefix.Network()] else [])
  }

  /** `a` lies in one of the listed prefixes of this family. */
  ghost predicate Listed(ips: seq<CidrText>, width: nat, a: Bytes)
  {
    exists t :: t in ips && Usable(t, width) && t.prefix.Contains(a)
  }

  lemma {:induction false} NetworksCover(ips: seq<CidrText>, width: nat, a: Bytes)
    ensures Covers(Networks(ips, width), a) <==> Listed(ips, width, a)
  {
    if |ips| > 0 {
      var n := |ips| - 1;
      NetworksCover(ips[..n], width, a);
      assert ips == ips[..n] + [ips[n]];
      var r := Networks(ips, width);
      if Usable(ips[n], width) {
        var p := ips[n].prefix.Network();
        assert r == Networks(ips[..n], width) + [p];
        assert p in r && ips[n] in ips;
        assert p.Contains(a) <==> ips[n].prefix.Contains(a);
      }
      assert forall t :: t in ips <==> t in ips[..n] || t == ips[n];
    }
  }

}
