/** Converging the installed port NATs to a list (pkg/nat/handler.go, pkg/nat/nat.go, api/nsp/v1/diff.go).
    Every commit to the kernel may fail; one that succeeds is applied as a whole. */
module NatHandlers {
  import opened Addresses
  import opened AddressLoops
  import opened IntervalSets
  import opened PortNatAdmission
  import opened NatChains
  import opened Lists

  datatype Vip = Vip(name: string, address: CidrText)

  /** A port NAT together with its name, the result of GetNatName. */
  datatype PortNat = PortNat(name: string, port: nat, target: nat, protocol: Protocol, vips: seq<Vip>) {
    predicate Named() { name == NatName(port, target, protocol) }

    predicate SameTriple(other: PortNat)
    {
      port == other.port && target == other.target && protocol == other.protocol
    }
  }

  function VipToSlice(vips: seq<Vip>): (r: seq<CidrText>)
    ensures |r| == |vips|
  {
    seq(|vips|, i requires 0 <= i < |vips| => vips[i].address)
  }

  /** The elements the VIPs contribute to the set of one family. */
  function SetOf(vips: seq<Vip>, width: nat): set<Element>
  {
    Members(Flatten(Networks(VipToSlice(vips), width)))
  }

  /** The chain a port NAT stands for. */
  function ChainOf(n: PortNat): Chain
  {
    Chain(n.port, n.target, n.protocol, SetOf(n.vips, 4), SetOf(n.vips, 16))
  }

  /** No address belongs to two of the VIPs. */
  ghost predicate DisjointVips(vips: seq<Vip>)
  {
    PairwiseDisjoint(Networks(VipToSlice(vips), 4), 4) && PairwiseDisjoint(Networks(VipToSlice(vips), 16), 16)
  }

  // ---------- diffs of texts ----------

  lemma {:induction false} InNetworks(ts: seq<CidrText>, width: nat, p: Prefix)
    ensures p in Networks(ts, width) <==> exists t :: t in ts && Usable(t, width) && t.prefix.Network() == p
  {
    if |ts| > 0 {
      var n := |ts| - 1;
      InNetworks(ts[..n], width, p);
      assert forall t :: t in ts <==> t in ts[..n] || t == ts[n];
    }
  }

  lemma NetworksOneMore(ts: seq<CidrText>, t: CidrText, width: nat)
    ensures Networks(ts + [t], width) == Networks(ts, width) + (if Usable(t, width) then [t.prefix.Network()] else [])
  {
    assert (ts + [t])[..|ts|] == ts;
  }

  /** Two different texts of a list with disjoint networks name different networks. */
  lemma {:induction false} TextsApart(ts: seq<CidrText>, width: nat, t: CidrText, u: CidrText)
    requires PairwiseDisjoint(Networks(ts, width), width) && t in ts && u in ts && t != u
    requires Usable(t, width) && Usable(u, width)
    ensures t.prefix.Network() != u.prefix.Network()
  {
    var n := |ts| - 1;
    var r := Networks(ts[..n], width);
    assert Networks(ts, width)[..|r|] == r;
    if t in ts[..n] && u in ts[..n] {
      TextsApart(ts[..n], width, t, u);
    } else {
      var other := if t == ts[n] then u else t;
      InNetworks(ts[..n], width, other.prefix.Network());
      var i :| 0 <= i < |r| && r[i] == other.prefix.Network();
      var p, q := Networks(ts, width)[i], Networks(ts, width)[|r|];
      ElementsDisjoint(p, q);
    }
  }

  lemma {:induction false} MinusTextsDisjoint(ts: seq<CidrText>, us: seq<CidrText>, width: nat)
    requires PairwiseDisjoint(Networks(ts, width), width)
    ensures PairwiseDisjoint(Networks(Minus(ts, us), width), width)
  {
    if |ts| > 0 {
      var n := |ts| - 1;
      var before, t, r := Networks(ts[..n], width), ts[n], Minus(ts[..n], us);
      assert ts == ts[..n] + [t];
      NetworksOneMore(ts[..n], t, width);
      NetworksOneMore(r, t, width);
      assert Minus(ts, us) == if t in us then r else r + [t];
      if Usable(t, width) {
        var p := t.prefix.Network();
        DisjointAppend(before, p, width);
        MinusTextsDisjoint(ts[..n], us, width);
        forall q | q in Networks(r, width) ensures q in before {
          InNetworks(r, width, q);
          InNetworks(ts[..n], width, q);
        }
        DisjointAppend(Networks(r, width), p, width);
      } else {
        assert Networks(ts, width) == before && Networks(r + [t], width) == Networks(r, width);
        MinusTextsDisjoint(ts[..n], us, width);
      }
    }
  }

  /** Replacing one VIP list by another, text by text, replaces the elements of one family. */
  lemma TextsReplace(before: seq<CidrText>, after: seq<CidrText>, width: nat)
    requires PairwiseDisjoint(Networks(before, width), width)
    ensures var kernel := Members(Flatten(Networks(before, width)));
            Applies(kernel, TextBatch(before, after, width))
            && Apply(kernel, TextBatch(before, after, width)) == Members(Flatten(Networks(after, width)))
  {
    var gone, more := Networks(Minus(before, after), width), Networks(Minus(after, before), width);
    MinusTextsDisjoint(before, after, width);
    forall p ensures p in gone ==> p in Networks(before, width) {
      InNetworks(Minus(before, after), width, p);
      InNetworks(before, width, p);
    }
    forall p ensures p in Networks(after, width) <==> (p in Networks(before, width) && p !in gone) || p in more {
      InNetworks(Minus(before, after), width, p);
      InNetworks(Minus(after, before), width, p);
      InNetworks(before, width, p);
      InNetworks(after, width, p);
      if p in gone && p in Networks(after, width) && p !in more {
        var t :| t in Minus(before, after) && Usable(t, width) && t.prefix.Network() == p;
        var u :| u in after && Usable(u, width) && u.prefix.Network() == p;
        assert u in before;
        TextsApart(before, width, t, u);
        assert false;
      }
    }
    ReplaceElements(Networks(before, width), Networks(after, width), gone, more, width);
  }

  /** Replacing B by S deletes D and adds A: a kernel set K becomes S if and only if it lies between B and B with S. */
  lemma ReplaceFrom(b: set<Element>, d: set<Element>, a: set<Element>, s: set<Element>, k: set<Element>)
    requires d <= b && s == b - d + a && b == s - a + d
    ensures d <= k && k - d + a == s <==> b <= k <= b + s
  {
    if d <= k && k - d + a == s {
      forall x | x in b ensures x in k {
        assert x in d || (x in s && x !in a);
      }
    }
  }

  /** The set of a family ends up with the elements of the new texts if and only if it has those of the recorded texts
      and no others than those of the recorded and the new ones. */
  lemma TextsConverge(before: seq<CidrText>, after: seq<CidrText>, width: nat, kernel: set<Element>)
    requires PairwiseDisjoint(Networks(before, width), width) && PairwiseDisjoint(Networks(after, width), width)
    ensures var b, s := Members(Flatten(Networks(before, width))), Members(Flatten(Networks(after, width)));
            Applies(kernel, TextBatch(before, after, width)) && Apply(kernel, TextBatch(before, after, width)) == s <==>
            b <= kernel <= b + s
  {
    TextsReplace(before, after, width);
    TextsReplace(after, before, width);
    var batch := TextBatch(before, after, width);
    ReplaceFrom(Members(Flatten(Networks(before, width))), Members(batch.deletes), Members(batch.adds),
                Members(Flatten(Networks(after, width))), kernel);
  }

  function TextBatch(before: seq<CidrText>, after: seq<CidrText>, width: nat): Batch
  {
    Batch(Flatten(Networks(Minus(before, after), width)), Flatten(Networks(Minus(after, before), width)))
  }

  // ---------- transitions ----------

  /** What the handler holds, each NAT with its present VIPs, and the chains in the kernel. */
  datatype State = State(held: map<string, PortNat>, chains: map<string, Chain>) {
    ghost predicate Valid()
    {
      held.Keys <= chains.Keys && forall n :: n in held ==> held[n].name == n
    }
  }

  /** What handler and kernel have under one name. */
  datatype Slot = Slot(held: Option<PortNat>, chain: Option<Chain>)

  /** A NAT to be set, with the kernel's answers to the commits this may take: creating the chain, changing its sets. */
  datatype Asked = Asked(portNat: PortNat, init: bool, up: bool)

  /** The kernel has all elements that a change of VIPs deletes. */
  predicate Applicable(c: Chain, before: seq<Vip>, after: seq<Vip>)
  {
    && Applies(c.set4, TextBatch(VipToSlice(before), VipToSlice(after), 4))
    && Applies(c.set6, TextBatch(VipToSlice(before), VipToSlice(after), 16))
  }

  /** A committed change of VIPs, on the two sets of a chain. */
  function Updated(c: Chain, before: seq<Vip>, after: seq<Vip>): Chain
  {
    c.(set4 := Apply(c.set4, TextBatch(VipToSlice(before), VipToSlice(after), 4)),
       set6 := Apply(c.set6, TextBatch(VipToSlice(before), VipToSlice(after), 16)))
  }

  /** The chain init leaves: rules for the NAT; sets that were in the kernel already keep their elements. */
  function Initialised(chain: Option<Chain>, n: PortNat): Chain
  {
    match chain
    case Some(c) => Chain(n.port, n.target, n.protocol, c.set4, c.set6)
    case None => Chain(n.port, n.target, n.protocol, {}, {})
  }

  /** A held NAT records the new VIPs whatever becomes of its chain. */
  function SetHeld(was: PortNat, c: Chain, a: Asked): Slot
  {
    Slot(Some(was.(vips := a.portNat.vips)),
         Some(if a.up && Applicable(c, was.vips, a.portNat.vips) then Updated(c, was.vips, a.portNat.vips) else c))
  }

  /** A NAT is held only when both commits succeed; the chain may be left without its VIPs. */
  function SetNew(chain: Option<Chain>, a: Asked): Slot
  {
    if !a.init then Slot(None, chain)
    else
      var c := Initialised(chain, a.portNat);
      if a.up && Applicable(c, [], a.portNat.vips) then Slot(Some(a.portNat), Some(Updated(c, [], a.portNat.vips)))
      else Slot(None, Some(c))
  }

  function SetSlot(s: Slot, a: Asked): Slot
  {
    if s.held.Some? && s.chain.Some? then SetHeld(s.held.value, s.chain.value, a) else SetNew(s.chain, a)
  }

  /** Whether setting a NAT reports no error. */
  predicate SetOk(s: Slot, a: Asked)
  {
    if s.held.Some? && s.chain.Some? then a.up && Applicable(s.chain.value, s.held.value.vips, a.portNat.vips)
    else SetNew(s.chain, a).held.Some?
  }

  function Find<T>(m: map<string, T>, k: string): Option<T> { if k in m then Some(m[k]) else None }

  function Put<T>(m: map<string, T>, k: string, x: Option<T>): map<string, T>
  {
    if x.Some? then m[k := x.value] else m - {k}
  }

  function At(st: State, k: string): Slot { Slot(Find(st.held, k), Find(st.chains, k)) }

  function AfterSet(st: State, a: Asked): State
  {
    var k, slot := a.portNat.name, SetSlot(At(st, a.portNat.name), a);
    State(Put(st.held, k, slot.held), Put(st.chains, k, slot.chain))
  }

  function AfterSets(st: State, asked: seq<Asked>): State
  {
    if |asked| == 0 then st else AfterSet(AfterSets(st, asked[..|asked| - 1]), asked[|asked| - 1])
  }

  predicate SetsOk(st: State, asked: seq<Asked>)
  {
    |asked| == 0 ||
    var before, a := asked[..|asked| - 1], asked[|asked| - 1];
    SetsOk(st, before) && SetOk(At(AfterSets(st, before), a.portNat.name), a)
  }

  /** NATs are forgotten before the kernel answers; the chains in `stuck` are not deleted. */
  function AfterDeletes(st: State, names: set<string>, stuck: set<string>): State
  {
    State(st.held - names, st.chains - ((names * st.held.Keys) - stuck))
  }

  function Names(ns: seq<PortNat>): set<string> { set n | n in ns :: n.name }

  function Nats(asked: seq<Asked>): (r: seq<PortNat>)
    ensures |r| == |asked|
  {
    seq(|asked|, i requires 0 <= i < |asked| => asked[i].portNat)
  }

  /** The names held that the list lacks. */
  function Gone(st: State, asked: seq<Asked>): set<string> { st.held.Keys - Names(Nats(asked)) }

  function AfterSetNats(st: State, asked: seq<Asked>, stuck: set<string>): State
  {
    AfterSets(AfterDeletes(st, Gone(st, asked), stuck), asked)
  }

  predicate SetNatsOk(st: State, asked: seq<Asked>, stuck: set<string>)
  {
    Gone(st, asked) !! stuck && SetsOk(AfterDeletes(st, Gone(st, asked), stuck), asked)
  }

  // ---------- the objects ----------

  /** The kernel's table, holding one chain with its two sets per name. */
  class NftTable {
    var chains: map<string, Chain>

    constructor ()
      ensures chains == map[]
    {
      chains := map[];
    }
  }

  class DestinationPortNat {
    const table: NftTable
    const portNat: PortNat
    var vips: seq<Vip>

    constructor (table: NftTable, portNat: PortNat)
      ensures this.table == table && this.portNat == portNat && vips == []
    {
      this.table := table;
      this.portNat := portNat;
      vips := [];
    }

    /** The NAT with the VIPs it has now. */
    function Current(): PortNat
      reads this
    {
      portNat.(vips := vips)
    }

    method Init(up: bool) returns (ok: bool)
      modifies table
      ensures ok == up
      ensures table.chains ==
              if up then old(table.chains)[portNat.name := Initialised(Find(old(table.chains), portNat.name), portNat)]
              else old(table.chains)
    {
      ok := up;
      if up {
        table.chains := table.chains[portNat.name := Initialised(Find(table.chains, portNat.name), portNat)];
      }
    }

    /** Removals and additions of both families go into one batch; the VIPs are recorded whatever becomes of it. */
    method SetVips(newVips: seq<Vip>, up: bool) returns (ok: bool)
      requires portNat.name in table.chains
      modifies this`vips, table
      ensures vips == newVips
      ensures ok == (up && Applicable(old(table.chains)[portNat.name], old(vips), newVips))
      ensures table.chains ==
              if ok then old(table.chains)[portNat.name := Updated(old(table.chains)[portNat.name], old(vips), newVips)]
              else old(table.chains)
    {
      var before, after := VipToSlice(vips), VipToSlice(newVips);
      var toAdd := StringArrayDiff(after, before);
      var toRemove := StringArrayDiff(before, after);
      var del4, del6 := Queue(toRemove);
      var add4, add6 := Queue(toAdd);
      var c := table.chains[portNat.name];
      ok := up && Applies(c.set4, Batch(del4, add4)) && Applies(c.set6, Batch(del6, add6));
      if ok {
        c := c.(set4 := Apply(c.set4, Batch(del4, add4)), set6 := Apply(c.set6, Batch(del6, add6)));
        table.chains := table.chains[portNat.name := c];
      }
      vips := newVips;
    }

    /** The elements of a list of texts, sorted by family; texts that are no prefix are ignored. */
    method Queue(ts: seq<CidrText>) returns (e4: seq<Element>, e6: seq<Element>)
      ensures e4 == Flatten(Networks(ts, 4)) && e6 == Flatten(Networks(ts, 16))
    {
      e4, e6 := [], [];
      for i := 0 to |ts|
        invariant e4 == Flatten(Networks(ts[..i], 4)) && e6 == Flatten(Networks(ts[..i], 16))
      {
        assert ts[..i + 1] == ts[..i] + [ts[i]];
        ElementsOneMore(ts[..i], ts[i], 4);
        ElementsOneMore(ts[..i], ts[i], 16);
        if ts[i].Cidr? && ts[i].prefix.Sized() {
          var net := ts[i].prefix.Network();
          var end := EndAddress(net);
          var pair := [Element(net.ip, false), Element(end, true)];
          if |net.ip| == 4 {
            e4 := e4 + pair;
          } else if |net.ip| == 16 {
            e6 := e6 + pair;
          }
        }
      }
      assert ts[..|ts|] == ts;
    }

    method Delete(up: bool) returns (ok: bool)
      modifies table
      ensures ok == up && table.chains == if up then old(table.chains) - {portNat.name} else old(table.chains)
    {
      ok := up;
      if up {
        table.chains := table.chains - {portNat.name};
      }
    }
  }

  /** A chain for the NAT, then its VIPs; on an error the object is not used, but a chain may be left. */
  method NewDestinationPortNat(table: NftTable, a: Asked) returns (dpn: DestinationPortNat, ok: bool)
    modifies table
    ensures fresh(dpn) && dpn.table == table && dpn.portNat == a.portNat && (ok ==> dpn.vips == a.portNat.vips)
    ensures var slot := SetNew(Find(old(table.chains), a.portNat.name), a);
            ok == slot.held.Some? && table.chains == Put(old(table.chains), a.portNat.name, slot.chain)
  {
    dpn := new DestinationPortNat(table, a.portNat);
    ok := dpn.Init(a.init);
    if ok {
      ok := dpn.SetVips(a.portNat.vips, a.up);
    }
  }

  lemma ElementsOneMore(ts: seq<CidrText>, t: CidrText, width: nat)
    ensures Flatten(Networks(ts + [t], width)) ==
            Flatten(Networks(ts, width)) + (if Usable(t, width) then ElementsOf(t.prefix.Network()) else [])
  {
    NetworksOneMore(ts, t, width);
    var r := Networks(ts, width);
    if Usable(t, width) {
      assert (r + [t.prefix.Network()])[..|r|] == r;
    } else {
      assert Networks(ts + [t], width) == r;
    }
  }

  // ---------- the handler ----------

  lemma NamesOneMore(ns: seq<PortNat>, n: PortNat)
    ensures Names(ns + [n]) == Names(ns) + {n.name}
  {
    assert forall x :: x in ns + [n] <==> x in ns || x == n;
  }

  lemma NamesUpTo(ns: seq<PortNat>, i: nat)
    requires i < |ns|
    ensures Names(ns[..i + 1]) == Names(ns[..i]) + {ns[i].name} && ns[i].name in Names(ns)
  {
    assert ns[..i + 1] == ns[..i] + [ns[i]];
    NamesOneMore(ns[..i], ns[i]);
  }

  /** The NATs that have none of the names, in order. */
  function NotNamed(ns: seq<PortNat>, names: set<string>): (r: seq<PortNat>)
    ensures forall n :: n in r <==> n in ns && n.name !in names
    ensures Names(r) == Names(ns) - names
  {
    if |ns| == 0 then []
    else
      var k := |ns| - 1;
      assert ns == ns[..k] + [ns[k]];
      NotNamed(ns[..k], names) + (if ns[k].name in names then [] else [ns[k]])
  }

  lemma {:induction false} NotNamedInOrder(ns: seq<PortNat>, names: set<string>)
    ensures Subsequence(NotNamed(ns, names), ns)
  {
    if |ns| > 0 {
      var k := |ns| - 1;
      NotNamedInOrder(ns[..k], names);
      assert ns == ns[..k] + [ns[k]];
      SubsequenceOneMore(NotNamed(ns[..k], names), ns[..k], ns[k], ns[k].name !in names);
    }
  }

  method PortNatDiff(set1: seq<PortNat>, set2: seq<PortNat>) returns (diff: seq<PortNat>)
    ensures diff == NotNamed(set1, Names(set2))
  {
    var set2Map: set<string> := {};
    for i := 0 to |set2|
      invariant set2Map == Names(set2[..i])
    {
      assert set2[..i + 1] == set2[..i] + [set2[i]];
      NamesOneMore(set2[..i], set2[i]);
      set2Map := set2Map + {set2[i].name};
    }
    assert set2[..|set2|] == set2;
    diff := [];
    for i := 0 to |set1|
      invariant diff == NotNamed(set1[..i], set2Map)
    {
      assert set1[..i + 1][..i] == set1[..i];
      if set1[i].name !in set2Map {
        diff := diff + [set1[i]];
      }
    }
    assert set1[..|set1|] == set1;
  }

  class NatHandler {
    const table: NftTable
    var nats: map<string, DestinationPortNat>

    /** A new handler keeps the chains that an earlier process left in the table. */
    constructor (table: NftTable)
      ensures this.table == table && Valid() && Current() == State(map[], table.chains)
    {
      this.table := table;
      nats := map[];
    }

    /** Every NAT is held under its own name and has a chain in the kernel. */
    ghost predicate Valid()
      reads this, table
    {
      && nats.Keys <= table.chains.Keys
      && (forall n :: n in nats ==> nats[n].table == table && nats[n].portNat.name == n)
    }

    ghost function Current(): (st: State)
      requires Valid()
      reads this, table, nats.Values
      ensures st.Valid() && st.held.Keys == nats.Keys
    {
      State(map n | n in nats :: nats[n].Current(), table.chains)
    }

    method GetPortNats() returns (portNats: seq<PortNat>)
      requires Valid()
      ensures forall n :: n in portNats <==> n.name in nats && nats[n.name].portNat == n
      ensures |portNats| == |nats| && Names(portNats) == nats.Keys
    {
      portNats := [];
      var left := nats.Keys;
      while left != {}
        invariant left <= nats.Keys && Names(portNats) == nats.Keys - left && |portNats| + |left| == |nats|
        invariant forall n :: n in portNats <==> n.name in nats && n.name !in left && nats[n.name].portNat == n
      {
        var n :| n in left;
        NamesOneMore(portNats, nats[n].portNat);
        portNats := portNats + [nats[n].portNat];
        left := left - {n};
      }
    }

    method DeleteNat(portNat: PortNat, up: bool) returns (ok: bool)
      requires Valid()
      modifies this`nats, table
      ensures Valid() && nats == old(nats) - {portNat.name} && ok == (up || portNat.name !in old(nats))
      ensures Current() == AfterDeletes(old(Current()), {portNat.name}, if up then {} else {portNat.name})
    {
      if portNat.name !in nats {
        return true;
      }
      var dpn := nats[portNat.name];
      nats := nats - {portNat.name};
      ok := dpn.Delete(up);
    }

    /** The held NAT of that name gets the new VIPs. */
    method UpdateNat(a: Asked) returns (ok: bool)
      requires Valid() && a.portNat.name in nats
      modifies table, nats[a.portNat.name]
      ensures Valid() && Current() == AfterSet(old(Current()), a) && ok == SetOk(At(old(Current()), a.portNat.name), a)
    {
      ghost var st, k := Current(), a.portNat.name;
      ok := Change(nats[a.portNat.name], a);
      assert st.held[k].vips == old(nats[k].vips) && st.chains[k := st.chains[k]] == st.chains;
    }

    method Change(dpn: DestinationPortNat, a: Asked) returns (ok: bool)
      requires Valid() && a.portNat.name in nats && nats[a.portNat.name] == dpn
      modifies table, dpn
      ensures Valid() && Current().held == old(Current()).held[a.portNat.name := dpn.portNat.(vips := a.portNat.vips)]
      ensures var c := old(table.chains)[a.portNat.name];
              && ok == (a.up && Applicable(c, old(dpn.vips), a.portNat.vips))
              && table.chains ==
                 if ok then old(table.chains)[a.portNat.name := Updated(c, old(dpn.vips), a.portNat.vips)]
                 else old(table.chains)
    {
      ghost var before := Current().held;
      ok := ChangeOne(dpn, a);
      OneChanged(before, Current().held, a.portNat.name);
    }

    /** The other NATs are different objects and stay as they are. */
    method ChangeOne(dpn: DestinationPortNat, a: Asked) returns (ok: bool)
      requires Valid() && a.portNat.name in nats && nats[a.portNat.name] == dpn
      modifies table, dpn
      ensures Valid() && dpn.Current() == dpn.portNat.(vips := a.portNat.vips)
      ensures forall n :: n in nats && n != a.portNat.name ==> nats[n].Current() == old(nats[n].Current())
      ensures var c := old(table.chains)[a.portNat.name];
              && ok == (a.up && Applicable(c, old(dpn.vips), a.portNat.vips))
              && table.chains ==
                 if ok then old(table.chains)[a.portNat.name := Updated(c, old(dpn.vips), a.portNat.vips)]
                 else old(table.chains)
    {
      assert forall n :: n in nats && n != a.portNat.name ==> nats[n] != dpn;
      ok := dpn.SetVips(a.portNat.vips, a.up);
    }

    method AddNat(a: Asked) returns (ok: bool)
      requires Valid() && a.portNat.name !in nats
      modifies this`nats, table
      ensures Valid() && fresh(nats.Values - old(nats.Values))
      ensures Current() == AfterSet(old(Current()), a) && ok == SetOk(At(old(Current()), a.portNat.name), a)
    {
      ghost var held := Current().held;
      var dpn;
      dpn, ok := NewDestinationPortNat(table, a);
      assert Valid() && Current().held == held;
      if ok {
        assert dpn.Current() == a.portNat;
        Store(a.portNat.name, dpn);
      } else {
        assert held - {a.portNat.name} == held;
      }
    }

    method Store(name: string, dpn: DestinationPortNat)
      requires Valid() && dpn.table == table && dpn.portNat.name == name && name in table.chains
      modifies this`nats
      ensures Valid() && nats == old(nats)[name := dpn] && nats.Values <= old(nats.Values) + {dpn}
      ensures Current() == State(old(Current()).held[name := dpn.Current()], table.chains)
    {
      nats := nats[name := dpn];
    }

    method SetNat(a: Asked) returns (ok: bool)
      requires Valid()
      modifies this`nats, table, nats.Values
      ensures Valid() && fresh(nats.Values - old(nats.Values))
      ensures Current() == AfterSet(old(Current()), a) && ok == SetOk(At(old(Current()), a.portNat.name), a)
    {
      if a.portNat.name in nats {
        ok := UpdateNat(a);
      } else {
        ok := AddNat(a);
      }
    }

    /** Deletes the NATs the list does not name, then sets every NAT of the list; errors do not stop it. */
    method SetNats(asked: seq<Asked>, stuck: set<string>) returns (ok: bool)
      requires Valid()
      modifies this`nats, table, nats.Values
      ensures Valid() && Current() == AfterSetNats(old(Current()), asked, stuck)
      ensures ok == SetNatsOk(old(Current()), asked, stuck)
    {
      ghost var st := Current();
      var toRemove := Unlisted(Nats(asked));
      ok := Replace(toRemove, asked, stuck, Gone(st, asked), st);
    }

    method Unlisted(portNats: seq<PortNat>) returns (toRemove: seq<PortNat>)
      requires Valid()
      ensures Names(toRemove) == nats.Keys - Names(portNats)
    {
      var current := GetPortNats();
      toRemove := PortNatDiff(current, portNats);
    }

    /** The two loops of SetNats. */
    method Replace(toRemove: seq<PortNat>, asked: seq<Asked>, stuck: set<string>, ghost gone: set<string>,
                   ghost st: State)
      returns (ok: bool)
      requires Valid() && st == Current() && gone == Names(toRemove) && gone <= nats.Keys
      modifies this`nats, table, nats.Values
      ensures Valid()
      ensures Current() == AfterSets(AfterDeletes(st, gone, stuck), asked)
      ensures ok == (gone !! stuck && SetsOk(AfterDeletes(st, gone, stuck), asked))
    {
      var deleted := DeleteAll(toRemove, stuck);
      var added := SetAll(asked);
      ok := deleted && added;
    }

    method SetAll(asked: seq<Asked>) returns (ok: bool)
      requires Valid()
      modifies this`nats, table, nats.Values
      ensures Valid() && Current() == AfterSets(old(Current()), asked) && ok == SetsOk(old(Current()), asked)
    {
      ok := true;
      ghost var st := Current();
      for i := 0 to |asked|
        invariant Valid() && fresh(nats.Values - old(nats.Values))
        invariant Current() == AfterSets(st, asked[..i]) && ok == SetsOk(st, asked[..i])
      {
        assert asked[..i + 1][..i] == asked[..i];
        var one := SetNat(asked[i]);
        ok := ok && one;
      }
      assert asked[..|asked|] == asked;
    }

    method DeleteAll(toRemove: seq<PortNat>, stuck: set<string>) returns (ok: bool)
      requires Valid() && Names(toRemove) <= nats.Keys
      modifies this`nats, table
      ensures Valid() && nats == old(nats) - Names(toRemove) && nats.Values <= old(nats.Values)
      ensures Current() == AfterDeletes(old(Current()), Names(toRemove), stuck) && ok == (Names(toRemove) !! stuck)
    {
      ok := true;
      ghost var st, done := Current(), {};
      for i := 0 to |toRemove|
        invariant Valid() && done == Names(toRemove[..i]) && nats == old(nats) - done
        invariant Current() == AfterDeletes(st, done, stuck) && ok == (done !! stuck)
      {
        NamesUpTo(toRemove, i);
        WithoutBoth(old(nats), done, toRemove[i].name);
        var deleted := DeleteNext(toRemove[i], stuck, st, done);
        ok := ok && deleted;
        done := done + {toRemove[i].name};
      }
      assert toRemove[..|toRemove|] == toRemove;
    }

    method DeleteNext(portNat: PortNat, stuck: set<string>, ghost st: State, ghost done: set<string>) returns (ok: bool)
      requires Valid() && st.Valid() && portNat.name in st.held && Current() == AfterDeletes(st, done, stuck)
      modifies this`nats, table
      ensures Valid() && nats == old(nats) - {portNat.name}
      ensures Current() == AfterDeletes(st, done + {portNat.name}, stuck)
      ensures (done !! stuck && ok) <==> (done + {portNat.name}) !! stuck
    {
      DeletesOneMore(st, done, portNat.name, stuck);
      ok := DeleteNat(portNat, portNat.name !in stuck);
    }
  }

  lemma OneChanged<T>(m: map<string, T>, m': map<string, T>, k: string)
    requires k in m && m'.Keys == m.Keys && forall n :: n in m && n != k ==> m'[n] == m[n]
    ensures m' == m[k := m'[k]]
  {
  }

  lemma WithoutBoth<T>(m: map<string, T>, ks: set<string>, k: string)
    ensures m - ks - {k} == m - (ks + {k})
  {
  }

  lemma DeletesOneMore(st: State, names: set<string>, k: string, stuck: set<string>)
    requires st.Valid() && k in st.held
    ensures AfterDeletes(AfterDeletes(st, names, stuck), {k}, if k !in stuck then {} else {k}) ==
            AfterDeletes(st, names + {k}, stuck)
    ensures (names + {k}) !! stuck <==> names !! stuck && k !in stuck
  {
  }
}
