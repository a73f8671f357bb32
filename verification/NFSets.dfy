/** The set of addresses that pkg/kernel/nftset.go keeps in the kernel for one address family. */
module NFSets {
  import opened Addresses
  import opened AddressLoops
  import opened IntervalSets

  method GetValidIPs(ips: seq<CidrText>, width: nat) returns (res: seq<Prefix>)
    ensures res == Networks(ips, width)
    ensures forall a: Bytes :: Covers(res, a) <==> Listed(ips, width, a)
  {
    res := [];
    for i := 0 to |ips|
      invariant res == Networks(ips[..i], width)
    {
      assert ips[..i + 1][..i] == ips[..i];
      if Usable(ips[i], width) {
        res := res + [ips[i].prefix.Network()];
      }
    }
    assert ips[..|ips|] == ips;
    forall a: Bytes { NetworksCover(ips, width, a); }
  }

  // ---------- one update ----------

  datatype State = State(ipAddresses: seq<Prefix>, kernel: set<Element>)

  /** One call of Update. `up` says whether the kernel accepts a batch that it has no reason to refuse. */
  datatype Call = Call(ips: seq<CidrText>, up: bool)

  function BatchFor(before: seq<Prefix>, after: seq<Prefix>): Batch
  {
    Batch(Flatten(Minus(before, after)), Flatten(Minus(after, before)))
  }

  /** The recorded list always becomes the new one, also when the kernel refuses the batch. */
  function Next(st: State, width: nat, c: Call): State
  {
    var after := Networks(c.ips, width);
    State(after, if c.up then Apply(st.kernel, BatchFor(st.ipAddresses, after)) else st.kernel)
  }

  /** A run over a kernel set that has elements `left` by an earlier process: configuring the set only adds it. */
  function Run(left: set<Element>, width: nat, calls: seq<Call>): State
  {
    if |calls| == 0 then State([], left) else Next(Run(left, width, calls[..|calls| - 1]), width, calls[|calls| - 1])
  }

  ghost predicate InSync(st: State, width: nat)
  {
    PairwiseDisjoint(st.ipAddresses, width) && st.kernel == Members(Flatten(st.ipAddresses))
  }

  class NFSetIP {
    const width: nat
    var ipAddresses: seq<Prefix>
    var kernel: set<Element>

    constructor (width: nat, left: set<Element>)
      ensures this.width == width && Current() == Run(left, width, [])
    {
      this.width := width;
      ipAddresses := [];
      kernel := left;
    }

    function Current(): State
      reads this
    {
      State(ipAddresses, kernel)
    }

    method Update(ips: seq<CidrText>, up: bool) returns (ok: bool)
      modifies this
      ensures Current() == Next(old(Current()), width, Call(ips, up))
      ensures old(InSync(Current(), width)) ==> ok == up
      ensures ok && old(InSync(Current(), width)) ==> kernel == Members(Flatten(ipAddresses))
    {
      var valid := GetValidIPs(ips, width);
      var before := ipAddresses;
      ipAddresses := valid;
      ok := SetElements(valid, before, up);
      if old(InSync(Current(), width)) {
        ReplaceApplies(before, valid, width);
      }
    }

    /** Queues the deletions, then the additions, and commits them as one batch. */
    method SetElements(after: seq<Prefix>, before: seq<Prefix>, up: bool) returns (ok: bool)
      modifies this`kernel
      ensures ok == (up && Applies(old(kernel), BatchFor(before, after)))
      ensures kernel == if up then Apply(old(kernel), BatchFor(before, after)) else old(kernel)
    {
      var toAdd := StringArrayDiff(after, before);
      var toRemove := StringArrayDiff(before, after);
      var deletes := Queue(toRemove);
      var adds := Queue(toAdd);
      var batch := Batch(deletes, adds);
      ok := up && Applies(kernel, batch);
      if ok {
        kernel := Apply(kernel, batch);
      }
    }

    method Queue(ps: seq<Prefix>) returns (r: seq<Element>)
      ensures r == Flatten(ps)
    {
      r := [];
      for i := 0 to |ps|
        invariant r == Flatten(ps[..i])
      {
        assert ps[..i + 1][..i] == ps[..i];
        var e := IpToSetElement(ps[i]);
        r := r + e;
      }
      assert ps[..|ps|] == ps;
    }

    method IpToSetElement(p: Prefix) returns (r: seq<Element>)
      ensures r == ElementsOf(p)
    {
      var broadcast := BroadcastFromIpNet(p);
      var next := NextIP(broadcast);
      r := [Element(p.ip, false), Element(next, true)];
    }
  }

  // ---------- every run ----------

  ghost predicate DisjointCalls(width: nat, calls: seq<Call>)
  {
    forall i :: 0 <= i < |calls| ==> PairwiseDisjoint(Networks(calls[i].ips, width), width)
  }

  /** The first update over leftover elements ends in agreement if and only if the new list has them all: nothing is
      ever deleted that was not recorded. */
  lemma FirstUpdate(left: set<Element>, width: nat, ips: seq<CidrText>)
    requires PairwiseDisjoint(Networks(ips, width), width)
    ensures InSync(Next(State([], left), width, Call(ips, true)), width) <==>
            left <= Members(Flatten(Networks(ips, width)))
  {
    var after := Networks(ips, width);
    NothingToDrop(left, after);
    MinusNone(after);
  }

  lemma NothingToDrop(left: set<Element>, after: seq<Prefix>)
    ensures Apply(left, BatchFor([], after)) == left + Members(Flatten(Minus(after, [])))
  {
    assert Minus([], after) == [];
    assert Flatten([]) == [];
  }

  lemma {:induction false} MinusNone<T(!new)>(a: seq<T>)
    ensures Minus(a, []) == a
  {
    if |a| > 0 {
      var n, none: seq<T> := |a| - 1, [];
      MinusNone(a[..n]);
      assert a[n] !in none;
      assert Minus(a, none) == Minus(a[..n], none) + [a[n]];
      assert a[..n] + [a[n]] == a;
    }
  }

  lemma {:induction false} RunInSync(left: set<Element>, width: nat, calls: seq<Call>)
    requires |calls| > 0 && DisjointCalls(width, calls) && forall i :: 0 <= i < |calls| ==> calls[i].up
    requires left <= Members(Flatten(Networks(calls[0].ips, width)))
    ensures InSync(Run(left, width, calls), width)
    ensures Run(left, width, calls).ipAddresses == Networks(calls[|calls| - 1].ips, width)
  {
    var n := |calls| - 1;
    if n == 0 {
      FirstUpdate(left, width, calls[0].ips);
      assert calls[..n] == [] && calls[0] == Call(calls[0].ips, true);
    } else {
      RunInSync(left, width, calls[..n]);
      ReplaceApplies(Run(left, width, calls[..n]).ipAddresses, Networks(calls[n].ips, width), width);
    }
  }

  /** After any run of updates whose lists are pairwise disjoint, the kernel holds exactly the addresses of the
      last list's prefixes of this family, if the first list has whatever an earlier process left. */
  lemma RunRepresents(left: set<Element>, width: nat, calls: seq<Call>, a: Bytes)
    requires |calls| > 0 && |a| == width
    requires DisjointCalls(width, calls) && forall i :: 0 <= i < |calls| ==> calls[i].up
    requires left <= Members(Flatten(Networks(calls[0].ips, width)))
    ensures Represents(Run(left, width, calls).kernel, a) <==> Listed(calls[|calls| - 1].ips, width, a)
  {
    RunInSync(left, width, calls);
    var st := Run(left, width, calls);
    FlattenRepresents(st.ipAddresses, width, a);
    NetworksCover(calls[|calls| - 1].ips, width, a);
  }

  function Repeat(c: Call, times: nat): seq<Call>
  {
    seq(times, _ => c)
  }

  function RunFrom(st: State, width: nat, calls: seq<Call>): State
    decreases |calls|
  {
    if |calls| == 0 then st else RunFrom(Next(st, width, calls[0]), width, calls[1..])
  }

  /** A batch the kernel does not take is never retried: the list is recorded anyway, so repeating the same
      update changes nothing, and lookups are right if and only if both lists cover the same addresses. */
  lemma RefusedUpdateSticks(st: State, width: nat, ips: seq<CidrText>, times: nat, a: Bytes)
    requires InSync(st, width) && |a| == width
    ensures var after := RunFrom(Next(st, width, Call(ips, false)), width, Repeat(Call(ips, true), times));
            && after == State(Networks(ips, width), st.kernel)
            && (Represents(after.kernel, a) == Listed(ips, width, a) <==>
                Covers(st.ipAddresses, a) == Covers(Networks(ips, width), a))
  {
    RepeatChangesNothing(Next(st, width, Call(ips, false)), width, ips, times);
    FlattenRepresents(st.ipAddresses, width, a);
    NetworksCover(ips, width, a);
  }

  lemma {:induction false} RepeatChangesNothing(st: State, width: nat, ips: seq<CidrText>, times: nat)
    requires st.ipAddresses == Networks(ips, width)
    ensures RunFrom(st, width, Repeat(Call(ips, true), times)) == st
  {
    if times > 0 {
      var c := Call(ips, true);
      assert Repeat(c, times)[1..] == Repeat(c, times - 1);
      MinusAll(st.ipAddresses, st.ipAddresses);
      assert Next(st, width, c) == st;
      RepeatChangesNothing(st, width, ips, times - 1);
    }
  }

  // ---------- networks that cannot be dropped together ----------

  ghost function FlatMap<P, E>(ps: seq<P>, f: P -> seq<E>): (r: seq<E>)
  {
    if |ps| == 0 then [] else FlatMap(ps[..|ps| - 1], f) + f(ps[|ps| - 1])
  }

  ghost predicate Share<P, E>(f: P -> seq<E>, p: P, q: P)
  {
    exists i, j :: 0 <= i < |f(p)| && 0 <= j < |f(q)| && f(p)[i] == f(q)[j]
  }

  /** No two items of `a` that `b` lacks share an element. */
  ghost predicate NoneShared<P, E>(a: seq<P>, b: seq<P>, f: P -> seq<E>)
  {
    forall i, j :: 0 <= i < j < |a| && a[i] !in b && a[j] !in b ==> !Share(f, a[i], a[j])
  }

  lemma NoneSharedAppend<P(!new), E>(a: seq<P>, p: P, b: seq<P>, f: P -> seq<E>)
    ensures NoneShared(a + [p], b, f) <==>
            NoneShared(a, b, f) && (p !in b ==> forall q :: q in a && q !in b ==> !Share(f, q, p))
  {
    var r := a + [p];
    assert r[|a|] == p && forall i :: 0 <= i < |a| ==> r[i] == a[i];
    if NoneShared(r, b, f) {
      forall i, j | 0 <= i < j < |a| && a[i] !in b && a[j] !in b ensures !Share(f, a[i], a[j]) {
        assert !Share(f, r[i], r[j]);
      }
      forall q | q in a && q !in b && p !in b ensures !Share(f, q, p) {
        var i :| 0 <= i < |a| && a[i] == q;
        assert !Share(f, r[i], r[|a|]);
      }
    }
  }

  lemma {:induction false} InFlatMap<P, E>(ps: seq<P>, f: P -> seq<E>, e: E)
    ensures e in FlatMap(ps, f) <==> exists i :: 0 <= i < |ps| && e in f(ps[i])
  {
    if |ps| > 0 {
      var n := |ps| - 1;
      InFlatMap(ps[..n], f, e);
      assert forall i :: 0 <= i < n ==> ps[..n][i] == ps[i];
    }
  }

  lemma DistinctConcat<T>(s: seq<T>, t: seq<T>)
    ensures Distinct(s + t) <==>
            Distinct(s) && Distinct(t) && forall i, j :: 0 <= i < |s| && 0 <= j < |t| ==> s[i] != t[j]
  {
    var r := s + t;
    if Distinct(r) {
      forall i, j | 0 <= i < |s| && 0 <= j < |t| ensures s[i] != t[j] {
        assert r[i] != r[|s| + j];
      }
      forall i, j | 0 <= i < j < |t| ensures t[i] != t[j] {
        assert r[|s| + i] != r[|s| + j];
      }
      forall i, j | 0 <= i < j < |s| ensures s[i] != s[j] {
        assert r[i] != r[j];
      }
    }
  }

  lemma DistinctOneMore<P(!new), E>(ps: seq<P>, p: P, f: P -> seq<E>)
    requires Distinct(f(p))
    ensures Distinct(FlatMap(ps, f) + f(p)) <==>
            Distinct(FlatMap(ps, f)) && forall q :: q in ps ==> !Share(f, q, p)
  {
    var s, t := FlatMap(ps, f), f(p);
    DistinctConcat(s, t);
    if i, j :| 0 <= i < |s| && 0 <= j < |t| && s[i] == t[j] {
      InFlatMap(ps, f, t[j]);
      var k :| 0 <= k < |ps| && t[j] in f(ps[k]);
      assert Share(f, ps[k], p);
    }
    if q :| q in ps && Share(f, q, p) {
      var k :| 0 <= k < |ps| && ps[k] == q;
      var i, j :| 0 <= i < |f(q)| && 0 <= j < |t| && f(q)[i] == t[j];
      assert t[j] in f(ps[k]);
      InFlatMap(ps, f, t[j]);
      assert t[j] in s;
    }
  }

  lemma DroppedOneMore<P(!new), E>(before: seq<P>, p: P, after: seq<P>, f: P -> seq<E>)
    requires Distinct(f(p)) && (Distinct(FlatMap(Minus(before, after), f)) <==> NoneShared(before, after, f))
    ensures Distinct(FlatMap(Minus(before, after), f) + (if p in after then [] else f(p))) <==>
            NoneShared(before + [p], after, f)
  {
    NoneSharedAppend(before, p, after, f);
    if p in after {
      assert FlatMap(Minus(before, after), f) + [] == FlatMap(Minus(before, after), f);
    } else {
      DistinctOneMore(Minus(before, after), p, f);
    }
  }

  lemma MinusOneMore<P(!new), E>(before: seq<P>, p: P, after: seq<P>, f: P -> seq<E>)
    ensures FlatMap(Minus(before + [p], after), f) ==
            FlatMap(Minus(before, after), f) + (if p in after then [] else f(p))
  {
    var r := Minus(before, after);
    assert (before + [p])[..|before|] == before;
    if p in after {
      assert Minus(before + [p], after) == r;
    } else {
      assert Minus(before + [p], after) == r + [p] && (r + [p])[..|r|] == r;
    }
  }

  lemma {:induction false} DroppedDistinct<P(!new), E>(before: seq<P>, after: seq<P>, f: P -> seq<E>)
    requires forall p :: Distinct(f(p))
    ensures Distinct(FlatMap(Minus(before, after), f)) <==> NoneShared(before, after, f)
  {
    if |before| == 0 {
      assert FlatMap(Minus(before, after), f) == [];
    } else {
      var n := |before| - 1;
      assert before == before[..n] + [before[n]];
      DroppedDistinct(before[..n], after, f);
      DroppedOneMore(before[..n], before[n], after, f);
      MinusOneMore(before[..n], before[n], after, f);
    }
  }

  lemma {:induction false} FlattenIsFlatMap(ps: seq<Prefix>)
    ensures Flatten(ps) == FlatMap(ps, ElementsOf)
  {
    if |ps| > 0 {
      FlattenIsFlatMap(ps[..|ps| - 1]);
    }
  }

  lemma DroppedMembers(before: seq<Prefix>, after: seq<Prefix>)
    ensures Members(Flatten(Minus(before, after))) <= Members(Flatten(before))
  {
    forall e | e in Flatten(Minus(before, after)) ensures e in Flatten(before) {
      InFlatten(Minus(before, after), e);
      InFlatten(before, e);
    }
  }

  /** A kernel that has all elements of the recorded list has those that the next batch deletes, each time it deletes
      one, if and only if no two prefixes to be dropped share an element. */
  lemma DropAccepted(before: seq<Prefix>, after: seq<Prefix>, kernel: set<Element>)
    requires Members(Flatten(before)) <= kernel
    ensures Applies(kernel, BatchFor(before, after)) <==> NoneShared(before, after, ElementsOf)
  {
    forall p ensures Distinct(ElementsOf(p)) {}
    DroppedDistinct(before, after, ElementsOf);
    FlattenIsFlatMap(Minus(before, after));
    DroppedMembers(before, after);
  }

  /** Two prefixes share an element if and only if they start alike or end alike. */
  lemma SharedElement(p: Prefix, q: Prefix)
    ensures Share(ElementsOf, p, q) <==> p.ip == q.ip || EndOf(p) == EndOf(q)
  {
    var s, t := ElementsOf(p), ElementsOf(q);
    assert p.ip == q.ip <==> s[0] == t[0];
    assert EndOf(p) == EndOf(q) <==> s[1] == t[1];
  }

  /** Prefixes of one width, any two of them equal or disjoint: a network may be listed several times. */
  ghost predicate EqualOrDisjoint(ps: seq<Prefix>, width: nat)
  {
    && (forall i :: 0 <= i < |ps| ==> ps[i].Canonical() && |ps[i].ip| == width)
    && (forall i, j :: 0 <= i < j < |ps| ==> ps[i] == ps[j] || Disjoint(ps[i], ps[j]))
  }

  /** Networks can be dropped if and only if none of them was recorded twice. */
  lemma RepeatedNetworkIsStuck(before: seq<Prefix>, after: seq<Prefix>, width: nat)
    requires EqualOrDisjoint(before, width)
    ensures Applies(Members(Flatten(before)), BatchFor(before, after)) <==>
            forall i, j :: 0 <= i < j < |before| && before[i] == before[j] ==> before[i] in after
  {
    DropAccepted(before, after, Members(Flatten(before)));
    forall i, j | 0 <= i < j < |before| ensures Share(ElementsOf, before[i], before[j]) <==> before[i] == before[j] {
      EqualShares(before[i], before[j]);
    }
  }

  lemma EqualShares(p: Prefix, q: Prefix)
    requires p.Canonical() && q.Canonical() && |p.ip| == |q.ip| && (p == q || Disjoint(p, q))
    ensures Share(ElementsOf, p, q) <==> p == q
  {
    if p == q {
      assert ElementsOf(p)[0] == ElementsOf(q)[0];
    } else {
      ElementsDisjoint(p, q);
      forall i, j | 0 <= i < 2 && 0 <= j < 2 ensures ElementsOf(p)[i] != ElementsOf(q)[j] {
        assert ElementsOf(p)[i] in ElementsOf(p) && ElementsOf(q)[j] in ElementsOf(q);
      }
    }
  }

  /** Two texts of one network, listed and then dropped: the list is empty and the kernel keeps both elements. */
  lemma TwoTextsStick(t: CidrText, u: CidrText, width: nat)
    requires t != u && Usable(t, width) && Usable(u, width) && t.prefix.Network() == u.prefix.Network()
    ensures var n := t.prefix.Network();
            Run({}, width, [Call([t, u], true), Call([], true)]) == State([], Members(Flatten([n, n])))
  {
    var n, first, second := t.prefix.Network(), Call([t, u], true), Call([], true);
    ListedTwice(t, u, width);
    RepeatedNetworkIsStuck([n, n], [], width);
    assert [first, second][..1] == [first] && [first][..0] == [];
    assert Run({}, width, []) == State([], {});
  }

  lemma ListedTwice(t: CidrText, u: CidrText, width: nat)
    requires Usable(t, width) && Usable(u, width) && t.prefix.Network() == u.prefix.Network()
    ensures var n := t.prefix.Network();
            Next(State([], {}), width, Call([t, u], true)) == State([n, n], Members(Flatten([n, n])))
  {
    var n := t.prefix.Network();
    TwoNetworks(t, u, width);
    NothingToDrop({}, [n, n]);
    MinusNone([n, n]);
  }

  lemma TwoNetworks(t: CidrText, u: CidrText, width: nat)
    requires Usable(t, width) && Usable(u, width)
    ensures Networks([t, u], width) == [t.prefix.Network(), u.prefix.Network()]
  {
    assert [t, u][..1] == [t] && [t][..0] == [];
    assert Networks([t], width) == [t.prefix.Network()];
  }

  /** For instance, the two texts of the IPv6 default network. */
  lemma DefaultNetworkSticks(p: Prefix)
    requires p == Prefix(seq(16, _ => 0), 0)
    ensures var n := p.Network();
            Run({}, 16, [Call([Cidr("::/0", p), Cidr("0::/0", p)], true), Call([], true)]) ==
            State([], Members(Flatten([n, n])))
  {
    assert "::/0"[0] != "0::/0"[0];
    TwoTextsStick(Cidr("::/0", p), Cidr("0::/0", p), 16);
  }
}
