/** When setting a list of port NATs leaves exactly that list, in the handler and in the kernel, and what remains of
    commits that failed (pkg/nat/handler.go, pkg/nat/nat.go). */
module NatConvergence {
  import opened Addresses
  import opened IntervalSets
  import opened PortNatAdmission
  import opened NatChains
  import opened NatHandlers

  ghost function MapValues<A, B>(m: map<string, A>, f: A -> B): map<string, B>
  {
    map k | k in m :: f(m[k])
  }

  ghost predicate Good(n: PortNat)
  {
    n.Named() && DisjointVips(n.vips)
  }

  /** What every commit keeps, failed or not: NATs are held under their names, with a chain and disjoint VIPs. */
  ghost predicate Kept(st: State)
  {
    forall k :: SlotKept(At(st, k), k)
  }

  ghost predicate SlotKept(s: Slot, k: string)
  {
    s.held.Some? ==> s.chain.Some? && s.held.value.name == k && Good(s.held.value)
  }

  /** The kernel holds exactly the chains of the NATs held, with the elements of their VIPs. */
  ghost predicate Synced(st: State)
  {
    Kept(st) && st.chains == MapValues(st.held, ChainOf)
  }

  ghost predicate AllGood(asked: seq<Asked>)
  {
    forall i :: 0 <= i < |asked| ==> Good(asked[i].portNat)
  }

  ghost predicate Willing(asked: seq<Asked>)
  {
    forall i :: 0 <= i < |asked| ==> asked[i].init && asked[i].up
  }

  ghost predicate DistinctNames(asked: seq<Asked>)
  {
    forall i, j :: 0 <= i < j < |asked| ==> asked[i].portNat.name != asked[j].portNat.name
  }

  // ---------- one name ----------

  lemma NamedTriple(a: PortNat, b: PortNat)
    requires a.Named() && b.Named()
    ensures a.name == b.name <==> a.SameTriple(b)
  {
    if a.name == b.name {
      NatNameInjective(a.port, a.target, a.protocol, b.port, b.target, b.protocol);
    }
  }

  /** The set has the elements of the recorded VIPs, and no others than those of the recorded and the new ones. */
  ghost predicate Between(kernel: set<Element>, before: seq<Vip>, after: seq<Vip>, width: nat)
  {
    SetOf(before, width) <= kernel <= SetOf(before, width) + SetOf(after, width)
  }

  /** What the kernel has under the name of the NAT to be set can be turned into its chain. */
  ghost predicate Near(s: Slot, n: PortNat)
  {
    s.chain.Some? ==>
      var c, before := s.chain.value, if s.held.Some? then s.held.value.vips else [];
      && (s.held.Some? ==> c.port == n.port && c.target == n.target && c.protocol == n.protocol)
      && Between(c.set4, before, n.vips, 4) && Between(c.set6, before, n.vips, 16)
  }

  /** A change of VIPs is accepted and gives the sets of the new VIPs if and only if the sets lie between. */
  lemma SetsConverge(c: Chain, before: seq<Vip>, n: PortNat)
    requires DisjointVips(before) && DisjointVips(n.vips)
    ensures Applicable(c, before, n.vips) && Updated(c, before, n.vips) == ChainOf(n) <==>
            && c.port == n.port && c.target == n.target && c.protocol == n.protocol
            && Between(c.set4, before, n.vips, 4) && Between(c.set6, before, n.vips, 16)
  {
    TextsConverge(VipToSlice(before), VipToSlice(n.vips), 4, c.set4);
    TextsConverge(VipToSlice(before), VipToSlice(n.vips), 16, c.set6);
  }

  lemma NoVips()
    ensures DisjointVips([]) && SetOf([], 4) == {} && SetOf([], 16) == {}
  {
    assert VipToSlice([]) == [];
    assert Networks([], 4) == [] && Networks([], 16) == [];
    assert Flatten([]) == [];
  }

  /** Nothing is deleted for a new NAT, so its VIPs are always accepted. */
  lemma NewApplies(c: Chain, vips: seq<Vip>)
    ensures Applicable(c, [], vips)
  {
    assert VipToSlice([]) == [];
    assert Minus([], VipToSlice(vips)) == [];
    assert Networks([], 4) == [] && Networks([], 16) == [];
    assert Flatten([]) == [];
  }

  /** The kernel takes the commits that setting the NAT asks for, unless it has a reason not to. */
  ghost predicate Taken(s: Slot, a: Asked)
  {
    a.up && (s.held.Some? || a.init)
  }

  /** A NAT is held as given exactly when it was held before or its commits are taken. Without an error its chain is
      right if and only if what was there is near; and if that is near, there is no error when the commits are taken. */
  lemma SlotConverges(s: Slot, a: Asked)
    requires SlotKept(s, a.portNat.name) && Good(a.portNat)
    ensures SetSlot(s, a).held == Some(a.portNat) <==> s.held.Some? || (a.init && a.up)
    ensures SetOk(s, a) ==> Taken(s, a) && (SetSlot(s, a).chain == Some(ChainOf(a.portNat)) <==> Near(s, a.portNat))
    ensures Near(s, a.portNat) && Taken(s, a) ==> SetOk(s, a)
  {
    var n := a.portNat;
    if s.held.Some? {
      var was := s.held.value;
      NamedTriple(was, n);
      assert was.(vips := n.vips) == n;
      SetsConverge(s.chain.value, was.vips, n);
    } else {
      var c := Initialised(s.chain, n);
      NoVips();
      NewApplies(c, n.vips);
      SetsConverge(c, [], n);
    }
  }

  /** Whatever the kernel answers, a name stays in order. */
  lemma SlotStaysKept(s: Slot, a: Asked)
    requires SlotKept(s, a.portNat.name) && Good(a.portNat)
    ensures SlotKept(SetSlot(s, a), a.portNat.name)
  {
    if s.held.Some? {
      NamedTriple(s.held.value, a.portNat);
    }
  }

  /** A change of VIPs the kernel did not take is recorded all the same: asking again succeeds and changes nothing. */
  lemma RefusedVipsStick(s: Slot, a: Asked)
    requires s.held.Some? && s.chain.Some? && !SetOk(s, a)
    ensures var r := SetSlot(s, a);
            && r == Slot(Some(s.held.value.(vips := a.portNat.vips)), s.chain)
            && SetOk(r, a.(up := true)) && SetSlot(r, a.(up := true)) == r
  {
    SameVips(s.chain.value, a.portNat.vips);
  }

  /** A new NAT whose VIPs the kernel does not take is not held, but its rules are in force, over whatever the sets had
      before; if its chain is not taken, nothing changes. */
  lemma FailedCreationLeavesChain(s: Slot, a: Asked)
    requires s.held.None?
    ensures !a.init ==> SetSlot(s, a) == s
    ensures a.init && !a.up ==>
      var n, r := a.portNat, SetSlot(s, a);
      && r.held.None? && r.chain.Some? && !SetOk(s, a)
      && r.chain.value.port == n.port && r.chain.value.target == n.target && r.chain.value.protocol == n.protocol
      && r.chain.value.set4 == (if s.chain.Some? then s.chain.value.set4 else {})
      && r.chain.value.set6 == (if s.chain.Some? then s.chain.value.set6 else {})
  {
  }

  lemma SameVips(c: Chain, vips: seq<Vip>)
    ensures Applicable(c, vips, vips) && Updated(c, vips, vips) == c
  {
    var v := VipToSlice(vips);
    MinusAll(v, v);
    assert Networks([], 4) == [] && Networks([], 16) == [];
    assert Flatten([]) == [];
    assert c.set4 - {} + {} == c.set4 && c.set6 - {} + {} == c.set6;
  }

  // ---------- all names ----------

  lemma FindPut<T>(m: map<string, T>, k: string, x: Option<T>, j: string)
    ensures Find(Put(m, k, x), j) == if j == k then x else Find(m, j)
  {
  }

  lemma AtSet(st: State, a: Asked, k: string)
    ensures At(AfterSet(st, a), k) == if k == a.portNat.name then SetSlot(At(st, k), a) else At(st, k)
  {
    var name, slot := a.portNat.name, SetSlot(At(st, a.portNat.name), a);
    FindPut(st.held, name, slot.held, k);
    FindPut(st.chains, name, slot.chain, k);
  }

  /** Names the list lacks stay as they are. */
  lemma {:induction false} SetsElsewhere(st: State, asked: seq<Asked>, k: string)
    requires forall i :: 0 <= i < |asked| ==> asked[i].portNat.name != k
    ensures At(AfterSets(st, asked), k) == At(st, k)
  {
    if |asked| > 0 {
      var n := |asked| - 1;
      SetsElsewhere(st, asked[..n], k);
      AtSet(AfterSets(st, asked[..n]), asked[n], k);
    }
  }

  /** Each name of the list is set once, and the list is set without an error if and only if each of them is. */
  lemma {:induction false} SetsAt(st: State, asked: seq<Asked>, i: nat)
    requires DistinctNames(asked) && i < |asked|
    ensures At(AfterSets(st, asked), asked[i].portNat.name) == SetSlot(At(st, asked[i].portNat.name), asked[i])
  {
    var n, k := |asked| - 1, asked[i].portNat.name;
    AtSet(AfterSets(st, asked[..n]), asked[n], k);
    if i < n {
      SetsAt(st, asked[..n], i);
    } else {
      SetsElsewhere(st, asked[..n], k);
    }
  }

  lemma {:induction false} SetsOkAt(st: State, asked: seq<Asked>)
    requires DistinctNames(asked)
    ensures SetsOk(st, asked) <==> EachOk(st, asked)
  {
    if |asked| > 0 {
      var n := |asked| - 1;
      SetsOkAt(st, asked[..n]);
      SetsElsewhere(st, asked[..n], asked[n].portNat.name);
      AllOneMore(asked, (a: Asked) => SetOk(At(st, a.portNat.name), a));
    }
  }

  ghost predicate AllOf<T>(s: seq<T>, p: T -> bool)
  {
    forall i :: 0 <= i < |s| ==> p(s[i])
  }

  lemma AllOneMore<T>(s: seq<T>, p: T -> bool)
    requires |s| > 0
    ensures AllOf(s, p) <==> AllOf(s[..|s| - 1], p) && p(s[|s| - 1])
  {
  }

  ghost predicate EachOk(st: State, asked: seq<Asked>)
  {
    AllOf(asked, (a: Asked) => SetOk(At(st, a.portNat.name), a))
  }

  lemma AtDeletes(st: State, names: set<string>, stuck: set<string>, k: string)
    requires names <= st.held.Keys
    ensures At(AfterDeletes(st, names, stuck), k) ==
            if k in names then Slot(None, if k in stuck then At(st, k).chain else None) else At(st, k)
  {
  }

  lemma InNames(asked: seq<Asked>, k: string)
    ensures k in Names(Nats(asked)) <==> exists i :: 0 <= i < |asked| && asked[i].portNat.name == k
  {
    if k in Names(Nats(asked)) {
      var n :| n in Nats(asked) && n.name == k;
      var i :| 0 <= i < |asked| && Nats(asked)[i] == n;
      assert asked[i].portNat.name == k;
    }
    if i :| 0 <= i < |asked| && asked[i].portNat.name == k {
      assert Nats(asked)[i] in Nats(asked);
    }
  }

  /** What is under a name after a SetNats. */
  lemma SetNatsAt(st: State, asked: seq<Asked>, stuck: set<string>, k: string)
    requires DistinctNames(asked)
    ensures k !in Names(Nats(asked)) ==>
      At(AfterSetNats(st, asked, stuck), k) == Slot(None, if k in st.held && k !in stuck then None else At(st, k).chain)
    ensures forall i :: 0 <= i < |asked| && asked[i].portNat.name == k ==>
      At(AfterSetNats(st, asked, stuck), k) == SetSlot(At(st, k), asked[i])
  {
    var gone := Gone(st, asked);
    var mid := AfterDeletes(st, gone, stuck);
    AtDeletes(st, gone, stuck, k);
    InNames(asked, k);
    if k !in Names(Nats(asked)) {
      SetsElsewhere(mid, asked, k);
    }
    forall i | 0 <= i < |asked| && asked[i].portNat.name == k
      ensures At(AfterSetNats(st, asked, stuck), k) == SetSlot(At(st, k), asked[i])
    {
      SetsAt(mid, asked, i);
    }
  }

  lemma SetNatsOkAt(st: State, asked: seq<Asked>, stuck: set<string>)
    requires DistinctNames(asked)
    ensures SetNatsOk(st, asked, stuck) <==> Gone(st, asked) !! stuck && EachOk(st, asked)
  {
    var gone := Gone(st, asked);
    SetsOkAt(AfterDeletes(st, gone, stuck), asked);
    forall i | 0 <= i < |asked|
      ensures At(AfterDeletes(st, gone, stuck), asked[i].portNat.name) == At(st, asked[i].portNat.name)
    {
      InNames(asked, asked[i].portNat.name);
      AtDeletes(st, gone, stuck, asked[i].portNat.name);
    }
  }

  /** The list as a map; a later NAT replaces an earlier one of the same name. */
  ghost function ByName(ns: seq<PortNat>): map<string, PortNat>
  {
    if |ns| == 0 then map[] else ByName(ns[..|ns| - 1])[ns[|ns| - 1].name := ns[|ns| - 1]]
  }

  lemma {:induction false} ByNameAt(ns: seq<PortNat>, k: string)
    ensures k in ByName(ns) <==> exists i :: 0 <= i < |ns| && ns[i].name == k
    ensures k in ByName(ns) ==> ByName(ns)[k].name == k && ByName(ns)[k] in ns
  {
    if |ns| > 0 {
      var n := |ns| - 1;
      ByNameAt(ns[..n], k);
      assert ns[n].name == k ==> k in ByName(ns);
      assert forall i :: 0 <= i < n ==> ns[..n][i] == ns[i];
    }
  }

  /** A name of the list, or none of them. */
  lemma Listing(asked: seq<Asked>, k: string)
    requires DistinctNames(asked)
    ensures k in ByName(Nats(asked)) <==> k in Names(Nats(asked))
    ensures k in ByName(Nats(asked)) ==>
      exists i :: 0 <= i < |asked| && asked[i].portNat.name == k && asked[i].portNat == ByName(Nats(asked))[k]
  {
    var ns := Nats(asked);
    ByNameAt(ns, k);
    InNames(asked, k);
    if k in ByName(ns) {
      var i :| 0 <= i < |ns| && ns[i] == ByName(ns)[k];
      assert asked[i].portNat == ns[i];
    }
    if i :| 0 <= i < |asked| && asked[i].portNat.name == k {
      assert ns[i].name == k;
    }
  }

  /** No chain is there that is neither held nor listed, and what is there under a listed name is near. */
  ghost predicate Convergent(st: State, asked: seq<Asked>)
  {
    && st.chains.Keys <= st.held.Keys + Names(Nats(asked))
    && forall i :: 0 <= i < |asked| ==> Near(At(st, asked[i].portNat.name), asked[i].portNat)
  }

  /** Whatever the kernel answers, the handler holds exactly the list afterwards, if and only if the commits for every
      NAT it did not hold are taken. */
  lemma HandlerConverges(st: State, asked: seq<Asked>, stuck: set<string>)
    requires Kept(st) && AllGood(asked) && DistinctNames(asked)
    ensures AfterSetNats(st, asked, stuck).held == ByName(Nats(asked)) <==>
            forall i :: 0 <= i < |asked| ==> asked[i].portNat.name in st.held || (asked[i].init && asked[i].up)
  {
    if i :| 0 <= i < |asked| && !(asked[i].portNat.name in st.held || (asked[i].init && asked[i].up)) {
      NotHeldAfter(st, asked, stuck, i);
    } else {
      SameMap(AfterSetNats(st, asked, stuck).held, ByName(Nats(asked)));
      forall k ensures Find(AfterSetNats(st, asked, stuck).held, k) == Find(ByName(Nats(asked)), k) {
        HeldAfter(st, asked, stuck, k);
        Listing(asked, k);
      }
    }
  }

  lemma NotHeldAfter(st: State, asked: seq<Asked>, stuck: set<string>, i: nat)
    requires Kept(st) && AllGood(asked) && DistinctNames(asked) && i < |asked|
    requires asked[i].portNat.name !in st.held && !(asked[i].init && asked[i].up)
    ensures AfterSetNats(st, asked, stuck).held != ByName(Nats(asked))
  {
    var k := asked[i].portNat.name;
    HeldAfter(st, asked, stuck, k);
    InNames(asked, k);
    Listing(asked, k);
    assert Find(ByName(Nats(asked)), k) == Some(asked[i].portNat);
  }

  lemma SameMap<T>(a: map<string, T>, b: map<string, T>)
    ensures a == b <==> forall k :: Find(a, k) == Find(b, k)
  {
    if forall k :: Find(a, k) == Find(b, k) {
      assert forall k :: k in a <==> Find(a, k).Some?;
      assert forall k :: k in b <==> Find(b, k).Some?;
      assert forall k :: k in a ==> Find(a, k).value == a[k];
    }
  }

  lemma HeldAfter(st: State, asked: seq<Asked>, stuck: set<string>, k: string)
    requires Kept(st) && AllGood(asked) && DistinctNames(asked)
    ensures k !in Names(Nats(asked)) ==> k !in AfterSetNats(st, asked, stuck).held
    ensures forall i :: 0 <= i < |asked| && asked[i].portNat.name == k ==>
      (Find(AfterSetNats(st, asked, stuck).held, k) == Some(asked[i].portNat) <==>
       k in st.held || (asked[i].init && asked[i].up))
  {
    SetNatsAt(st, asked, stuck, k);
    assert SlotKept(At(st, k), k);
    var r := At(AfterSetNats(st, asked, stuck), k);
    assert k !in Names(Nats(asked)) ==> r.held.None?;
    forall i | 0 <= i < |asked| && asked[i].portNat.name == k
      ensures r.held == Some(asked[i].portNat) <==> k in st.held || (asked[i].init && asked[i].up)
    {
      SlotConverges(At(st, k), asked[i]);
    }
  }

  /** After an error-free call, the chain under a name is right if and only if it was not stray, or near if listed. */
  lemma ChainAfter(st: State, asked: seq<Asked>, stuck: set<string>, k: string)
    requires Kept(st) && AllGood(asked) && DistinctNames(asked) && Gone(st, asked) !! stuck && EachOk(st, asked)
    ensures k !in Names(Nats(asked)) ==>
      (Find(AfterSetNats(st, asked, stuck).chains, k) == Find(MapValues(ByName(Nats(asked)), ChainOf), k) <==>
       k !in st.chains || k in st.held)
    ensures forall i :: 0 <= i < |asked| && asked[i].portNat.name == k ==>
      (Find(AfterSetNats(st, asked, stuck).chains, k) == Find(MapValues(ByName(Nats(asked)), ChainOf), k) <==>
       Near(At(st, k), asked[i].portNat))
  {
    Listing(asked, k);
    SetNatsAt(st, asked, stuck, k);
    assert SlotKept(At(st, k), k);
    var r := At(AfterSetNats(st, asked, stuck), k);
    assert k in st.held && k in stuck ==> k in Names(Nats(asked));
    forall i | 0 <= i < |asked| && asked[i].portNat.name == k
      ensures r.chain == Find(MapValues(ByName(Nats(asked)), ChainOf), k) <==> Near(At(st, k), asked[i].portNat)
    {
      InNames(asked, k);
      var j :| 0 <= j < |asked| && asked[j].portNat.name == k && asked[j].portNat == ByName(Nats(asked))[k];
      assert i == j && SetOk(At(st, k), asked[i]);
      SlotConverges(At(st, k), asked[i]);
    }
  }

  /** From every state that earlier calls may have left, failed ones included, an error-free SetNats leaves exactly the
      list in the handler, and exactly the list's chains in the kernel if and only if there are no stray chains and the
      sets of the listed names are near. */
  lemma SetNatsConverges(st: State, asked: seq<Asked>, stuck: set<string>)
    requires Kept(st) && AllGood(asked) && DistinctNames(asked) && SetNatsOk(st, asked, stuck)
    ensures AfterSetNats(st, asked, stuck).held == ByName(Nats(asked))
    ensures AfterSetNats(st, asked, stuck).chains == MapValues(ByName(Nats(asked)), ChainOf) <==> Convergent(st, asked)
  {
    SetNatsOkAt(st, asked, stuck);
    EachTaken(st, asked);
    HandlerConverges(st, asked, stuck);
    ChainsConverge(st, asked, stuck);
  }

  lemma EachTaken(st: State, asked: seq<Asked>)
    requires Kept(st) && AllGood(asked) && EachOk(st, asked)
    ensures forall i :: 0 <= i < |asked| ==> Taken(At(st, asked[i].portNat.name), asked[i])
  {
    forall i | 0 <= i < |asked| ensures Taken(At(st, asked[i].portNat.name), asked[i]) {
      assert SetOk(At(st, asked[i].portNat.name), asked[i]);
      assert SlotKept(At(st, asked[i].portNat.name), asked[i].portNat.name);
      SlotConverges(At(st, asked[i].portNat.name), asked[i]);
    }
  }

  lemma ChainsConverge(st: State, asked: seq<Asked>, stuck: set<string>)
    requires Kept(st) && AllGood(asked) && DistinctNames(asked) && Gone(st, asked) !! stuck && EachOk(st, asked)
    ensures AfterSetNats(st, asked, stuck).chains == MapValues(ByName(Nats(asked)), ChainOf) <==> Convergent(st, asked)
  {
    var r, m := AfterSetNats(st, asked, stuck).chains, MapValues(ByName(Nats(asked)), ChainOf);
    SameMap(r, m);
    if Convergent(st, asked) {
      forall k ensures Find(r, k) == Find(m, k) {
        ChainAfter(st, asked, stuck, k);
        InNames(asked, k);
      }
    }
    if forall k :: Find(r, k) == Find(m, k) {
      forall k | k in st.chains ensures k in st.held || k in Names(Nats(asked)) {
        ChainAfter(st, asked, stuck, k);
      }
      forall i | 0 <= i < |asked| ensures Near(At(st, asked[i].portNat.name), asked[i].portNat) {
        ChainAfter(st, asked, stuck, asked[i].portNat.name);
      }
    }
  }

  /** From such a state there is no error if and only if the commits asked for are taken. */
  lemma ConvergentSucceeds(st: State, asked: seq<Asked>, stuck: set<string>)
    requires Kept(st) && AllGood(asked) && DistinctNames(asked) && Convergent(st, asked)
    ensures SetNatsOk(st, asked, stuck) <==>
            && Gone(st, asked) !! stuck
            && forall i :: 0 <= i < |asked| ==> Taken(At(st, asked[i].portNat.name), asked[i])
  {
    SetNatsOkAt(st, asked, stuck);
    forall i | 0 <= i < |asked|
      ensures SetOk(At(st, asked[i].portNat.name), asked[i]) <==> Taken(At(st, asked[i].portNat.name), asked[i])
    {
      assert SlotKept(At(st, asked[i].portNat.name), asked[i].portNat.name);
      SlotConverges(At(st, asked[i].portNat.name), asked[i]);
    }
    assert EachOk(st, asked) <==> forall i :: 0 <= i < |asked| ==> SetOk(At(st, asked[i].portNat.name), asked[i]);
  }

  // ---------- every run ----------

  /** One SetNats, with the kernel's answers. */
  datatype Call = Call(asked: seq<Asked>, stuck: set<string>)

  function RunFrom(st: State, calls: seq<Call>): State
  {
    if |calls| == 0 then st
    else AfterSetNats(RunFrom(st, calls[..|calls| - 1]), calls[|calls| - 1].asked, calls[|calls| - 1].stuck)
  }

  lemma {:induction false} SetsKeep(st: State, asked: seq<Asked>)
    requires Kept(st) && AllGood(asked)
    ensures Kept(AfterSets(st, asked))
  {
    if |asked| > 0 {
      var n := |asked| - 1;
      SetsKeep(st, asked[..n]);
      var mid := AfterSets(st, asked[..n]);
      forall k ensures SlotKept(At(AfterSet(mid, asked[n]), k), k) {
        assert SlotKept(At(mid, k), k);
        AtSet(mid, asked[n], k);
        if k == asked[n].portNat.name {
          SlotStaysKept(At(mid, k), asked[n]);
        }
      }
    }
  }

  lemma DeletesKeep(st: State, names: set<string>, stuck: set<string>)
    requires Kept(st)
    ensures Kept(AfterDeletes(st, names, stuck))
  {
    forall k ensures SlotKept(At(AfterDeletes(st, names, stuck), k), k) {
      assert SlotKept(At(st, k), k);
    }
  }

  /** Every run of calls with good lists, whatever the kernel answers, ends in a state the theorems above are about. */
  lemma {:induction false} RunKept(st: State, calls: seq<Call>)
    requires Kept(st) && forall i :: 0 <= i < |calls| ==> AllGood(calls[i].asked)
    ensures Kept(RunFrom(st, calls))
  {
    if |calls| > 0 {
      var n := |calls| - 1;
      RunKept(st, calls[..n]);
      var mid := RunFrom(st, calls[..n]);
      DeletesKeep(mid, Gone(mid, calls[n].asked), calls[n].stuck);
      SetsKeep(AfterDeletes(mid, Gone(mid, calls[n].asked), calls[n].stuck), calls[n].asked);
    }
  }

  /** A chain the handler does not hold stays as it is, whatever else is set, as long as no list has its name. */
  lemma {:induction false} StrayStays(st: State, calls: seq<Call>, k: string)
    requires k !in st.held && forall i :: 0 <= i < |calls| ==> k !in Names(Nats(calls[i].asked))
    ensures At(RunFrom(st, calls), k) == At(st, k)
  {
    if |calls| > 0 {
      var n := |calls| - 1;
      StrayStays(st, calls[..n], k);
      var mid, asked := RunFrom(st, calls[..n]), calls[n].asked;
      assert At(mid, k).held == None;
      InNames(asked, k);
      SetsElsewhere(AfterDeletes(mid, Gone(mid, asked), calls[n].stuck), asked, k);
    }
  }

  /** A deletion that fails is never retried: the NAT is forgotten, and its chain stays until a list has its name. */
  lemma FailedDeletionSticks(st: State, call: Call, calls: seq<Call>, k: string)
    requires k in st.held && k in st.chains && k in call.stuck && k !in Names(Nats(call.asked))
    requires forall i :: 0 <= i < |calls| ==> k !in Names(Nats(calls[i].asked))
    ensures At(RunFrom(AfterSetNats(st, call.asked, call.stuck), calls), k) == Slot(None, Some(st.chains[k]))
  {
    InNames(call.asked, k);
    SetsElsewhere(AfterDeletes(st, Gone(st, call.asked), call.stuck), call.asked, k);
    var r := AfterSetNats(st, call.asked, call.stuck);
    assert At(r, k).held == None;
    StrayStays(r, calls, k);
  }

  // ---------- runs without errors ----------

  lemma SyncedSlot(st: State, k: string)
    requires Synced(st)
    ensures SlotKept(At(st, k), k)
    ensures At(st, k) == if k in st.held then Slot(Some(st.held[k]), Some(ChainOf(st.held[k]))) else Slot(None, None)
  {
  }

  lemma ExactIsNear(was: PortNat, n: PortNat)
    requires was.SameTriple(n)
    ensures Near(Slot(Some(was), Some(ChainOf(was))), n) && Near(Slot(None, None), n)
  {
  }

  lemma SyncedIsNear(st: State, n: PortNat)
    requires Synced(st) && Good(n)
    ensures Near(At(st, n.name), n) && SlotKept(At(st, n.name), n.name)
  {
    SyncedSlot(st, n.name);
    if n.name in st.held {
      NamedTriple(st.held[n.name], n);
      ExactIsNear(st.held[n.name], n);
    } else {
      ExactIsNear(n, n);
    }
  }

  /** In agreement, setting a NAT succeeds if its commits are taken, and then leaves agreement. */
  lemma SyncedSet(st: State, a: Asked, r: State)
    requires Synced(st) && Good(a.portNat) && r == AfterSet(st, a)
    ensures Taken(At(st, a.portNat.name), a) <==> SetOk(At(st, a.portNat.name), a)
    ensures SetOk(At(st, a.portNat.name), a) ==> Synced(r) && r.held == st.held[a.portNat.name := a.portNat]
  {
    var k, n := a.portNat.name, a.portNat;
    SyncedIsNear(st, n);
    SlotConverges(At(st, k), a);
    if SetOk(At(st, k), a) {
      assert r == State(st.held[k := n], st.chains[k := ChainOf(n)]);
      MapValuesPut(st.held, ChainOf, k, n);
      forall j ensures SlotKept(At(r, j), j) {
        AtSet(st, a, j);
        SyncedSlot(st, j);
      }
    }
  }

  lemma MapValuesPut<A, B>(m: map<string, A>, f: A -> B, k: string, x: A)
    ensures MapValues(m[k := x], f) == MapValues(m, f)[k := f(x)]
  {
  }

  lemma MapValuesDrop<A, B>(m: map<string, A>, f: A -> B, ks: set<string>)
    ensures MapValues(m - ks, f) == MapValues(m, f) - ks
  {
  }

  lemma MergePut<T>(m: map<string, T>, m': map<string, T>, k: string, x: T)
    ensures (m + m')[k := x] == m + m'[k := x]
  {
  }

  lemma ByNameOneMore(asked: seq<Asked>)
    requires |asked| > 0
    ensures var n := |asked| - 1;
            ByName(Nats(asked)) == ByName(Nats(asked[..n]))[asked[n].portNat.name := asked[n].portNat]
  {
    assert Nats(asked)[..|asked| - 1] == Nats(asked[..|asked| - 1]);
  }

  lemma {:induction false} SyncedSets(st: State, asked: seq<Asked>)
    requires Synced(st) && AllGood(asked)
    ensures Willing(asked) ==> SetsOk(st, asked)
    ensures SetsOk(st, asked) ==> Synced(AfterSets(st, asked))
    ensures SetsOk(st, asked) ==> AfterSets(st, asked).held == st.held + ByName(Nats(asked))
  {
    if |asked| == 0 {
      assert ByName(Nats(asked)) == map[];
    } else {
      var n := |asked| - 1;
      SyncedSets(st, asked[..n]);
      ByNameOneMore(asked);
      if SetsOk(st, asked[..n]) {
        SyncedSet(AfterSets(st, asked[..n]), asked[n], AfterSets(st, asked));
        MergePut(st.held, ByName(Nats(asked[..n])), asked[n].portNat.name, asked[n].portNat);
      }
    }
  }

  /** From agreement, every list is set without an error by a willing kernel, and an error-free call leaves exactly the
      list and agreement; a list may name a NAT several times. */
  lemma SyncedConverges(st: State, asked: seq<Asked>, stuck: set<string>)
    requires Synced(st) && AllGood(asked)
    ensures Willing(asked) && stuck == {} ==> SetNatsOk(st, asked, stuck)
    ensures SetNatsOk(st, asked, stuck) ==> Synced(AfterSetNats(st, asked, stuck))
    ensures SetNatsOk(st, asked, stuck) ==> AfterSetNats(st, asked, stuck).held == ByName(Nats(asked))
  {
    var gone := Gone(st, asked);
    if gone !! stuck {
      SyncedDeletes(st, gone, stuck);
      SyncedSets(AfterDeletes(st, gone, stuck), asked);
      NamesByName(asked);
      Covered(st.held, ByName(Nats(asked)));
    }
  }

  lemma SyncedDeletes(st: State, gone: set<string>, stuck: set<string>)
    requires Synced(st) && gone <= st.held.Keys && gone !! stuck
    ensures Synced(AfterDeletes(st, gone, stuck)) && AfterDeletes(st, gone, stuck).held == st.held - gone
  {
    MapValuesDrop(st.held, ChainOf, gone);
    assert gone * st.held.Keys == gone && gone - stuck == gone;
    DeletesKeep(st, gone, stuck);
  }

  lemma Covered<T>(m: map<string, T>, m': map<string, T>)
    ensures (m - (m.Keys - m'.Keys)) + m' == m'
  {
  }

  lemma NamesByName(asked: seq<Asked>)
    ensures ByName(Nats(asked)).Keys == Names(Nats(asked))
  {
    forall k ensures k in ByName(Nats(asked)) <==> k in Names(Nats(asked)) {
      ByNameAt(Nats(asked), k);
      InNames(asked, k);
      if i :| 0 <= i < |asked| && asked[i].portNat.name == k {
        assert Nats(asked)[i].name == k;
      }
    }
  }

  /** Agreement is one of the states from which every list converges. */
  lemma SyncedIsConvergent(st: State, asked: seq<Asked>)
    requires Synced(st) && AllGood(asked)
    ensures Convergent(st, asked)
  {
    forall i | 0 <= i < |asked| ensures Near(At(st, asked[i].portNat.name), asked[i].portNat) {
      SyncedIsNear(st, asked[i].portNat);
    }
  }

  /** No call of the run reports an error. */
  ghost predicate RunOk(st: State, calls: seq<Call>)
  {
    |calls| == 0 ||
    var before, call := calls[..|calls| - 1], calls[|calls| - 1];
    RunOk(st, before) && SetNatsOk(RunFrom(st, before), call.asked, call.stuck)
  }

  /** In an error-free run that starts in agreement, agreement is kept and the last list is what is held. */
  lemma {:induction false} RunSynced(st: State, calls: seq<Call>)
    requires Synced(st) && RunOk(st, calls) && forall i :: 0 <= i < |calls| ==> AllGood(calls[i].asked)
    ensures Synced(RunFrom(st, calls))
    ensures |calls| > 0 ==> RunFrom(st, calls).held == ByName(Nats(calls[|calls| - 1].asked))
  {
    if |calls| > 0 {
      var n := |calls| - 1;
      RunSynced(st, calls[..n]);
      SyncedConverges(RunFrom(st, calls[..n]), calls[n].asked, calls[n].stuck);
    }
  }

  /** An error-free run whose first list converges ends with exactly the last list in the handler and in the kernel. */
  lemma {:induction false} RunConverges(st: State, calls: seq<Call>)
    requires |calls| > 0 && RunOk(st, calls) && forall i :: 0 <= i < |calls| ==> AllGood(calls[i].asked)
    requires Kept(st) && DistinctNames(calls[0].asked) && Convergent(st, calls[0].asked)
    ensures Synced(RunFrom(st, calls)) && RunFrom(st, calls).held == ByName(Nats(calls[|calls| - 1].asked))
  {
    var n := |calls| - 1;
    if n > 0 {
      RunConverges(st, calls[..n]);
      SyncedConverges(RunFrom(st, calls[..n]), calls[n].asked, calls[n].stuck);
    } else {
      var call := calls[0];
      assert calls[..n] == [];
      SetNatsConverges(st, call.asked, call.stuck);
      DeletesKeep(st, Gone(st, call.asked), call.stuck);
      SetsKeep(AfterDeletes(st, Gone(st, call.asked), call.stuck), call.asked);
    }
  }

  /** A handler that starts over the chains of an earlier process: its first list converges if and only if every chain
      is listed and has no element that the list does not give it. */
  lemma RestartConverges(chains: map<string, Chain>, asked: seq<Asked>)
    requires AllGood(asked)
    ensures Kept(State(map[], chains))
    ensures Convergent(State(map[], chains), asked) <==>
            && chains.Keys <= Names(Nats(asked))
            && forall i :: 0 <= i < |asked| && asked[i].portNat.name in chains ==>
                 var c, vips := chains[asked[i].portNat.name], asked[i].portNat.vips;
                 c.set4 <= SetOf(vips, 4) && c.set6 <= SetOf(vips, 16)
  {
    var st := State(map[], chains);
    NoVips();
    forall i | 0 <= i < |asked|
      ensures Near(At(st, asked[i].portNat.name), asked[i].portNat) <==>
              asked[i].portNat.name in chains ==>
                var c, vips := chains[asked[i].portNat.name], asked[i].portNat.vips;
                c.set4 <= SetOf(vips, 4) && c.set6 <= SetOf(vips, 16)
    {
      var c := At(st, asked[i].portNat.name).chain;
    }
    assert st.held.Keys + Names(Nats(asked)) == Names(Nats(asked));
  }
}
