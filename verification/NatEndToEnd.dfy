/** From an admitted list of port NATs to what the installed chains do to packets. */
module NatEndToEnd {
  import opened Addresses
  import opened IntervalSets
  import opened PortNatAdmission
  import opened NatRules
  import opened NatChains
  import opened NatHandlers
  import opened NatConvergence

  // ---------- why port numbers must not meet ----------

  /** In either order each field is rewritten at most once and to the same value, and replies restore every port
      that no other port is translated to. */
  ghost predicate WellBehaved(c: Chain, d: Chain, k: FlowKey)
  {
    forall port: nat :: port < 65536 ==> BehavesAt(c, d, k, EncodePort(port))
  }

  ghost predicate BehavesAt(c: Chain, d: Chain, k: FlowKey, x: Bytes)
  {
    && (forall back :: Rewrites([c, d], k, back, x) <= 1 && Rewrites([d, c], k, back, x) <= 1
                       && Fold([c, d], k, back, x) == Fold([d, c], k, back, x))
    && (!Shadowed([c, d], k, x) ==> Fold([c, d], k, true, Fold([c, d], k, false, x)) == x)
  }

  lemma FoldTwo(c: Chain, d: Chain, k: FlowKey, back: bool, x: Bytes)
    ensures Fold([c, d], k, back, x) == Step(d, k, back, Step(c, k, back, x))
    ensures Rewrites([c, d], k, back, x) ==
            (if Fires(c, k, back, x) then 1 else 0) + (if Fires(d, k, back, Step(c, k, back, x)) then 1 else 0)
  {
    assert [c, d][1..] == [d] && [d][1..] == [];
    var y := Step(c, k, back, x);
    assert Fold([d], k, back, y) == Fold([], k, back, Step(d, k, back, y));
    assert Rewrites([d], k, back, y) ==
           (if Fires(d, k, back, y) then 1 else 0) + Rewrites([], k, back, Step(d, k, back, y));
  }

  /** Two different chains on a common address are well behaved if and only if they have no port number in common. */
  lemma MeetingIsMisbehaving(c: Chain, d: Chain, k: FlowKey)
    requires c.PortsFit() && d.PortsFit() && (c.port != d.port || c.target != d.target)
    requires c.Covers(k) && d.Covers(k)
    ensures WellBehaved(c, d, k) <==> !Meet(c, d)
  {
    if Meet(c, d) {
      var port := Witness(c, d, k);
      assert !BehavesAt(c, d, k, EncodePort(port));
    } else {
      forall port: nat | port < 65536 ensures BehavesAt(c, d, k, EncodePort(port)) {
        var x := EncodePort(port);
        assert Apart([c, d]) && Apart([d, c]);
        forall back ensures Rewrites([c, d], k, back, x) <= 1 && Rewrites([d, c], k, back, x) <= 1
                            && Fold([c, d], k, back, x) == Fold([d, c], k, back, x) {
          SameFold([c, d], [d, c], k, back, x);
        }
        BackAgain([c, d], k, x);
      }
    }
  }

  /** A port on which two chains that meet misbehave. */
  lemma Witness(c: Chain, d: Chain, k: FlowKey) returns (port: nat)
    requires c.PortsFit() && d.PortsFit() && (c.port != d.port || c.target != d.target)
    requires c.Covers(k) && d.Covers(k) && Meet(c, d)
    ensures port < 65536 && !BehavesAt(c, d, k, EncodePort(port))
  {
    if c.target == d.port || c.port == d.port {
      port := c.port;
    } else {
      port := d.port;
    }
    var x := EncodePort(port);
    FoldTwo(c, d, k, false, x);
    FoldTwo(d, c, k, false, x);
    FoldTwo(c, d, k, true, Fold([c, d], k, false, x));
    Different(c.port, d.port);
    Different(c.port, d.target);
    Different(c.target, d.port);
    Different(c.target, d.target);
    Different(c.port, c.target);
    Different(d.port, d.target);
  }

  lemma Different(a: nat, b: nat)
    requires a < 65536 && b < 65536
    ensures EncodePort(a) == EncodePort(b) <==> a == b
  {
    if EncodePort(a) == EncodePort(b) {
      EncodePortInjective(a, b);
    }
  }

  // ---------- from names to addresses ----------

  /** The addresses of the VIPs, by name. */
  type VipTable = map<string, CidrText>

  ghost predicate InText(t: CidrText, a: Bytes)
  {
    t.Cidr? && t.prefix.Sized() && t.prefix.Contains(a)
  }

  /** VIPs with different names cover different addresses. */
  ghost predicate NamesDisjoint(table: VipTable)
  {
    forall u, v, a: Bytes :: u in table && v in table && u != v ==> !(InText(table[u], a) && InText(table[v], a))
  }

  /** getVips: the named VIPs that exist. */
  function GetVips(names: seq<string>, table: VipTable): seq<Vip>
  {
    if |names| == 0 then []
    else
      var n := |names| - 1;
      GetVips(names[..n], table) + (if names[n] in table then [Vip(names[n], table[names[n]])] else [])
  }

  function ConvertPortNat(s: PortNatSpec, table: VipTable): PortNat
  {
    PortNat(NameOf(s), s.port, s.targetPort, s.protocol, GetVips(s.vips, table))
  }

  function ConvertPortNats(specs: seq<PortNatSpec>, table: VipTable): (r: seq<PortNat>)
    ensures |r| == |specs|
  {
    seq(|specs|, i requires 0 <= i < |specs| => ConvertPortNat(specs[i], table))
  }

  lemma {:induction false} InGetVips(names: seq<string>, table: VipTable, v: Vip)
    ensures v in GetVips(names, table) <==> v.name in names && v.name in table && table[v.name] == v.address
  {
    if |names| > 0 {
      var n := |names| - 1;
      InGetVips(names[..n], table, v);
      assert names == names[..n] + [names[n]];
    }
  }

  /** Every entry keeps its ports and protocol, is named after them, and gets the VIPs it names that exist. */
  lemma ConvertedEntry(specs: seq<PortNatSpec>, table: VipTable, i: nat, v: Vip)
    requires i < |specs|
    ensures var n, s := ConvertPortNats(specs, table)[i], specs[i];
            && n.port == s.port && n.target == s.targetPort && n.protocol == s.protocol && n.Named()
            && (v in n.vips <==> v.name in s.vips && v.name in table && table[v.name] == v.address)
  {
    InGetVips(specs[i].vips, table, v);
  }

  /** An address in the networks of the resolved VIPs belongs to a VIP named. */
  lemma ListedByName(names: seq<string>, table: VipTable, width: nat, a: Bytes) returns (name: string)
    requires Covers(Networks(VipToSlice(GetVips(names, table)), width), a)
    ensures name in names && name in table && InText(table[name], a)
  {
    var vips := GetVips(names, table);
    NetworksCover(VipToSlice(vips), width, a);
    var t :| t in VipToSlice(vips) && Usable(t, width) && t.prefix.Contains(a);
    var i :| 0 <= i < |vips| && VipToSlice(vips)[i] == t;
    InGetVips(names, table, vips[i]);
    name := vips[i].name;
  }

  /** A prefix that shares an address with those of other names does not exist. */
  lemma ForeignDisjoint(names: seq<string>, table: VipTable, width: nat, name: string, q: Prefix)
    requires NamesDisjoint(table) && name !in names && name in table && Usable(table[name], width)
    requires q in Networks(VipToSlice(GetVips(names, table)), width)
    ensures Disjoint(q, table[name].prefix.Network())
  {
    var t := table[name];
    forall a: Bytes | q.Contains(a) ensures !t.prefix.Network().Contains(a) {
      assert Covers(Networks(VipToSlice(GetVips(names, table)), width), a);
      var u := ListedByName(names, table, width, a);
      assert u != name && !InText(t, a);
    }
  }

  lemma {:induction false} ResolvedDisjoint(names: seq<string>, table: VipTable, width: nat)
    requires NoRepeat(names) && NamesDisjoint(table)
    ensures PairwiseDisjoint(Networks(VipToSlice(GetVips(names, table)), width), width)
  {
    if |names| > 0 {
      var n := |names| - 1;
      ResolvedDisjoint(names[..n], table, width);
      var before := GetVips(names[..n], table);
      if names[n] in table {
        var t := table[names[n]];
        assert VipToSlice(GetVips(names, table)) == VipToSlice(before) + [t];
        NetworksOneMore(VipToSlice(before), t, width);
        var r := Networks(VipToSlice(before), width);
        if Usable(t, width) {
          forall q | q in r ensures Disjoint(q, t.prefix.Network()) {
            ForeignDisjoint(names[..n], table, width, names[n], q);
          }
          DisjointAppend(r, t.prefix.Network(), width);
        } else {
          assert Networks(VipToSlice(GetVips(names, table)), width) == r;
        }
      } else {
        assert GetVips(names, table) == before;
      }
    }
  }

  // ---------- the installed chains ----------

  ghost predicate PortsFit(specs: seq<PortNatSpec>)
  {
    forall s :: s in specs ==> s.port < 65536 && s.targetPort < 65536
  }

  lemma ConvertedGood(s: PortNatSpec, table: VipTable)
    requires NoRepeat(s.vips) && NamesDisjoint(table)
    ensures Good(ConvertPortNat(s, table))
  {
    ResolvedDisjoint(s.vips, table, 4);
    ResolvedDisjoint(s.vips, table, 16);
  }

  /** A packet field matched by a NAT's chain carries an address of one of its VIPs. */
  lemma CoveredByName(s: PortNatSpec, table: VipTable, k: FlowKey) returns (name: string)
    requires NoRepeat(s.vips) && NamesDisjoint(table) && ChainOf(ConvertPortNat(s, table)).Covers(k)
    ensures name in s.vips && name in table && InText(table[name], k.addr)
  {
    var width := |k.addr|;
    ResolvedDisjoint(s.vips, table, width);
    FlattenRepresents(Networks(VipToSlice(GetVips(s.vips, table)), width), width, k.addr);
    name := ListedByName(s.vips, table, width, k.addr);
  }

  lemma SameProtocol(p: Protocol, q: Protocol)
    requires ParseL4Proto(p) == ParseL4Proto(q)
    ensures p == q
  {
  }

  /** Entries of an admitted list whose chains match a common packet field have no port number in common. */
  lemma AdmittedDoNotMeet(specs: seq<PortNatSpec>, table: VipTable, i: nat, j: nat, k: FlowKey)
    requires Compatible(specs) && NamesDisjoint(table) && i < j < |specs|
    requires ChainOf(ConvertPortNat(specs[i], table)).Covers(k) && ChainOf(ConvertPortNat(specs[j], table)).Covers(k)
    ensures !PortsMeet(specs[i], specs[j])
  {
    var u := CoveredByName(specs[i], table, k);
    var v := CoveredByName(specs[j], table, k);
    assert u == v;
    SameProtocol(specs[i].protocol, specs[j].protocol);
  }

  /** Chains of an admitted list. */
  ghost predicate AllFrom(cs: seq<Chain>, specs: seq<PortNatSpec>, table: VipTable)
  {
    forall c :: c in cs ==> exists i :: 0 <= i < |specs| && c == ChainOf(ConvertPortNat(specs[i], table))
  }

  lemma AdmittedApart(specs: seq<PortNatSpec>, table: VipTable, cs: seq<Chain>)
    requires Compatible(specs) && PortsFit(specs) && NamesDisjoint(table) && AllFrom(cs, specs, table)
    ensures Apart(cs)
  {
    forall c | c in cs ensures c.PortsFit() {
      var i :| 0 <= i < |specs| && c == ChainOf(ConvertPortNat(specs[i], table));
      assert specs[i] in specs;
    }
    forall c, d, k | c in cs && d in cs && c != d && c.Covers(k) && d.Covers(k) ensures !Meet(c, d) {
      var i :| 0 <= i < |specs| && c == ChainOf(ConvertPortNat(specs[i], table));
      var j :| 0 <= j < |specs| && d == ChainOf(ConvertPortNat(specs[j], table));
      if i < j {
        AdmittedDoNotMeet(specs, table, i, j, k);
      } else {
        AdmittedDoNotMeet(specs, table, j, i, k);
      }
    }
  }

  /** Chains of the list are chains of its entries. */
  lemma InstalledFrom(specs: seq<PortNatSpec>, table: VipTable, chains: map<string, Chain>, cs: seq<Chain>)
    requires chains == MapValues(ByName(ConvertPortNats(specs, table)), ChainOf)
    requires forall c :: c in cs ==> c in chains.Values
    ensures AllFrom(cs, specs, table)
  {
    var ns := ConvertPortNats(specs, table);
    forall c | c in cs ensures exists i :: 0 <= i < |specs| && c == ChainOf(ConvertPortNat(specs[i], table)) {
      var n :| n in chains && chains[n] == c;
      ByNameAt(ns, n);
      var i :| 0 <= i < |ns| && ns[i] == ByName(ns)[n];
    }
  }

  /** What is set is an admitted list, with VIPs resolved. */
  ghost predicate Admitted(asked: seq<Asked>, specs: seq<PortNatSpec>, table: VipTable)
  {
    Compatible(specs) && PortsFit(specs) && NamesDisjoint(table) && Nats(asked) == ConvertPortNats(specs, table)
  }

  /** An admitted list is good, and its names differ. */
  lemma AdmittedReady(asked: seq<Asked>, specs: seq<PortNatSpec>, table: VipTable)
    requires Admitted(asked, specs, table)
    ensures AllGood(asked) && DistinctNames(asked)
  {
    forall i | 0 <= i < |asked| ensures asked[i].portNat == ConvertPortNat(specs[i], table) {
      assert Nats(asked)[i] == asked[i].portNat;
    }
    forall i | 0 <= i < |asked| ensures Good(asked[i].portNat) {
      ConvertedGood(specs[i], table);
    }
    forall i, j | 0 <= i < j < |asked| ensures asked[i].portNat.name != asked[j].portNat.name {
      NameOfInjective(specs[i], specs[j]);
    }
  }

  // ---------- which packets are translated, in the bytes they consist of ----------

  /** The number the Internet protocols give the transport protocol. */
  ghost predicate Numbered(protocol: Protocol, l4: bv8)
  {
    match protocol
    case TCP => l4 == 6
    case UDP => l4 == 17
    case SCTP => l4 == 132
  }

  /** Destination address and port of a packet, or source address and port on the way back. */
  ghost function AddressField(p: Packet, back: bool): Bytes
    requires WellFormed(p)
  {
    if p.nfproto == 2 then (if back then p.network[12..16] else p.network[16..20])
    else if back then p.network[8..24] else p.network[24..40]
  }

  ghost function PortField(p: Packet, back: bool): Bytes
    requires WellFormed(p)
  {
    if back then p.transport[0..2] else p.transport[2..4]
  }

  /** The entry is about this address, protocol and port: its exposed port towards a VIP, its target port from one. */
  ghost predicate Concerns(s: PortNatSpec, table: VipTable, p: Packet, back: bool)
    requires WellFormed(p)
  {
    && Numbered(s.protocol, p.l4proto)
    && (exists name :: name in s.vips && name in table && InText(table[name], AddressField(p, back)))
    && PortField(p, back) == EncodePort(if back then s.targetPort else s.port)
  }

  /** A packet to an exposed port of a VIP leaves with the target port, one from a target port with the exposed port,
      and any other keeps its port. */
  ghost predicate Translates(specs: seq<PortNatSpec>, table: VipTable, cs: seq<Chain>, p: Packet, back: bool)
    requires WellFormed(p)
  {
    && (forall i :: 0 <= i < |specs| && Concerns(specs[i], table, p, back) ==>
          PortField(RunChains(cs, p), back) == EncodePort(if back then specs[i].port else specs[i].targetPort))
    && ((forall i :: 0 <= i < |specs| ==> !Concerns(specs[i], table, p, back)) ==>
          PortField(RunChains(cs, p), back) == PortField(p, back))
  }

  ghost function KeyOf(p: Packet, back: bool): FlowKey
    requires WellFormed(p)
  {
    if back then SrcKey(p) else DstKey(p)
  }

  /** A chain matches exactly the packets of its protocol with an address of a VIP that its entry names. */
  lemma CoversByName(s: PortNatSpec, table: VipTable, k: FlowKey)
    requires NoRepeat(s.vips) && NamesDisjoint(table) && k.Sized()
    ensures ChainOf(ConvertPortNat(s, table)).Covers(k) <==>
            Numbered(s.protocol, k.l4) && exists name :: name in s.vips && name in table && InText(table[name], k.addr)
  {
    if ChainOf(ConvertPortNat(s, table)).Covers(k) {
      var name := CoveredByName(s, table, k);
    }
    if name :| name in s.vips && name in table && InText(table[name], k.addr) {
      NameCovers(s, table, k, name);
    }
  }

  lemma NameCovers(s: PortNatSpec, table: VipTable, k: FlowKey, name: string)
    requires NoRepeat(s.vips) && NamesDisjoint(table) && k.Sized()
    requires name in s.vips && name in table && InText(table[name], k.addr)
    ensures Represents(ChainOf(ConvertPortNat(s, table)).Lookup(k.nfproto), k.addr)
  {
    var width, vips, v := |k.addr|, GetVips(s.vips, table), Vip(name, table[name]);
    InGetVips(s.vips, table, v);
    var i :| 0 <= i < |vips| && vips[i] == v;
    assert VipToSlice(vips)[i] == table[name];
    assert Listed(VipToSlice(vips), width, k.addr);
    NetworksCover(VipToSlice(vips), width, k.addr);
    ResolvedDisjoint(s.vips, table, width);
    FlattenRepresents(Networks(VipToSlice(vips), width), width, k.addr);
  }

  lemma ConcernedFires(s: PortNatSpec, table: VipTable, p: Packet, back: bool)
    requires NoRepeat(s.vips) && NamesDisjoint(table) && WellFormed(p)
    ensures Fires(ChainOf(ConvertPortNat(s, table)), KeyOf(p, back), back, PortField(p, back)) <==>
            Concerns(s, table, p, back)
  {
    assert KeyOf(p, back).addr == AddressField(p, back);
    CoversByName(s, table, KeyOf(p, back));
  }

  /** Every entry of an admitted list has its chain among those installed. */
  lemma EntryInstalled(specs: seq<PortNatSpec>, table: VipTable, i: nat)
    requires Compatible(specs) && i < |specs|
    ensures var m := MapValues(ByName(ConvertPortNats(specs, table)), ChainOf);
            ChainOf(ConvertPortNat(specs[i], table)) in m.Values
  {
    var ns := ConvertPortNats(specs, table);
    var k := ns[i].name;
    ByNameAt(ns, k);
    var j :| 0 <= j < |ns| && ns[j] == ByName(ns)[k];
    NameOfInjective(specs[i], specs[j]);
    assert i == j;
    assert MapValues(ByName(ns), ChainOf)[k] == ChainOf(ns[i]);
  }

  lemma ListTranslates(specs: seq<PortNatSpec>, table: VipTable, cs: seq<Chain>, p: Packet, back: bool)
    requires Compatible(specs) && PortsFit(specs) && NamesDisjoint(table) && WellFormed(p)
    requires Members(cs) == MapValues(ByName(ConvertPortNats(specs, table)), ChainOf).Values
    ensures Translates(specs, table, cs, p, back)
  {
    ChainsMeaning(cs, p);
    assert PortField(RunChains(cs, p), back) == Fold(cs, KeyOf(p, back), back, PortField(p, back));
    assert forall c :: c in cs <==> c in Members(cs);
    InstalledFrom(specs, table, MapValues(ByName(ConvertPortNats(specs, table)), ChainOf), cs);
    forall i | 0 <= i < |specs| ensures ChainOf(ConvertPortNat(specs[i], table)) in cs {
      EntryInstalled(specs, table, i);
    }
    EntriesDecide(specs, table, cs, p, back);
  }

  lemma EntriesDecide(specs: seq<PortNatSpec>, table: VipTable, cs: seq<Chain>, p: Packet, back: bool)
    requires Compatible(specs) && PortsFit(specs) && NamesDisjoint(table) && WellFormed(p) && AllFrom(cs, specs, table)
    requires forall i :: 0 <= i < |specs| ==> ChainOf(ConvertPortNat(specs[i], table)) in cs
    ensures var y := Fold(cs, KeyOf(p, back), back, PortField(p, back));
            && (forall i :: 0 <= i < |specs| && Concerns(specs[i], table, p, back) ==>
                  y == EncodePort(if back then specs[i].port else specs[i].targetPort))
            && ((forall i :: 0 <= i < |specs| ==> !Concerns(specs[i], table, p, back)) ==> y == PortField(p, back))
  {
    var k, x := KeyOf(p, back), PortField(p, back);
    AdmittedApart(specs, table, cs);
    FoldResult(cs, k, back, x);
    forall i | 0 <= i < |specs| && Concerns(specs[i], table, p, back)
      ensures Fold(cs, k, back, x) == EncodePort(if back then specs[i].port else specs[i].targetPort)
    {
      ConcernedFires(specs[i], table, p, back);
    }
    if c :| c in cs && Fires(c, k, back, x) {
      var i :| 0 <= i < |specs| && c == ChainOf(ConvertPortNat(specs[i], table));
      ConcernedFires(specs[i], table, p, back);
    }
  }

  /** The traffic a soundness result is about: a packet through the chains, and the reply to it. */
  ghost predicate Answers(cs: seq<Chain>, p: Packet, reply: Packet)
  {
    WellFormed(p) && WellFormed(reply) && SrcKey(reply) == DstKey(p) && SrcPort(reply) == DstPort(RunChains(cs, p))
  }

  /** Both ports are translated as the entries say; every order of the chains does the same to the packet and rewrites
      each of its ports at most once; and the reply carries the port the client asked for, if and only if that port is
      not the target of another port of the same VIP and protocol. */
  ghost predicate Sound(specs: seq<PortNatSpec>, table: VipTable, cs: seq<Chain>, ds: seq<Chain>, p: Packet,
                        reply: Packet)
    requires Answers(cs, p, reply)
  {
    && Translates(specs, table, cs, p, false) && Translates(specs, table, cs, p, true)
    && RunChains(cs, p) == RunChains(ds, p)
    && Rewrites(cs, SrcKey(p), true, SrcPort(p)) <= 1 && Rewrites(cs, DstKey(p), false, DstPort(p)) <= 1
    && (SrcPort(RunChains(ds, reply)) == DstPort(p) <==> !Shadowed(cs, DstKey(p), DstPort(p)))
  }

  lemma ListIsSound(specs: seq<PortNatSpec>, table: VipTable, chains: map<string, Chain>,
                    cs: seq<Chain>, ds: seq<Chain>, p: Packet, reply: Packet)
    requires Compatible(specs) && PortsFit(specs) && NamesDisjoint(table)
    requires chains == MapValues(ByName(ConvertPortNats(specs, table)), ChainOf)
    requires Distinct(cs) && Distinct(ds) && Members(cs) == Members(ds) == chains.Values && Answers(cs, p, reply)
    ensures Sound(specs, table, cs, ds, p, reply)
  {
    assert forall c :: c in cs ==> c in Members(cs);
    InstalledFrom(specs, table, chains, cs);
    AdmittedApart(specs, table, cs);
    ListTranslates(specs, table, cs, p, false);
    ListTranslates(specs, table, cs, p, true);
    OrderIrrelevant(cs, ds, p);
    OrderIrrelevant(cs, ds, reply);
    ReplyRestores(cs, p, reply);
  }

  /** After an error-free SetNats of an admitted list, from any state that earlier calls left, failed ones included, in
      which no chain is stray and the listed sets are near, translation is sound. */
  lemma AdmittedNatIsSound(specs: seq<PortNatSpec>, table: VipTable, st: State, asked: seq<Asked>, stuck: set<string>,
                           cs: seq<Chain>, ds: seq<Chain>, p: Packet, reply: Packet)
    requires Admitted(asked, specs, table) && Kept(st) && Convergent(st, asked) && SetNatsOk(st, asked, stuck)
    requires Distinct(cs) && Distinct(ds) && Answers(cs, p, reply)
    requires Members(cs) == Members(ds) == AfterSetNats(st, asked, stuck).chains.Values
    ensures Sound(specs, table, cs, ds, p, reply)
  {
    AdmittedReady(asked, specs, table);
    SetNatsConverges(st, asked, stuck);
    ListIsSound(specs, table, AfterSetNats(st, asked, stuck).chains, cs, ds, p, reply);
  }

  ghost predicate AllAdmitted(calls: seq<NatConvergence.Call>)
  {
    forall i :: 0 <= i < |calls| ==> exists specs, table :: Admitted(calls[i].asked, specs, table)
  }

  lemma AllReady(calls: seq<NatConvergence.Call>)
    requires AllAdmitted(calls)
    ensures forall i :: 0 <= i < |calls| ==> AllGood(calls[i].asked) && DistinctNames(calls[i].asked)
  {
    forall i | 0 <= i < |calls| ensures AllGood(calls[i].asked) && DistinctNames(calls[i].asked) {
      var specs, table :| Admitted(calls[i].asked, specs, table);
      AdmittedReady(calls[i].asked, specs, table);
    }
  }

  /** In every error-free run of admitted lists, each with the VIPs of its time, translation is sound after the last
      call, when the first list converges: on an empty table it does. */
  lemma AdmittedRunIsSound(specs: seq<PortNatSpec>, table: VipTable, st: State, calls: seq<NatConvergence.Call>,
                           cs: seq<Chain>, ds: seq<Chain>, p: Packet, reply: Packet)
    requires |calls| > 0 && AllAdmitted(calls) && Admitted(calls[|calls| - 1].asked, specs, table) && RunOk(st, calls)
    requires st == State(map[], map[]) || (Kept(st) && Convergent(st, calls[0].asked))
    requires Distinct(cs) && Distinct(ds) && Answers(cs, p, reply)
    requires Members(cs) == Members(ds) == RunFrom(st, calls).chains.Values
    ensures Sound(specs, table, cs, ds, p, reply)
  {
    AllReady(calls);
    if st == State(map[], map[]) {
      SyncedIsConvergent(st, calls[0].asked);
    }
    RunConverges(st, calls);
    ListIsSound(specs, table, RunFrom(st, calls).chains, cs, ds, p, reply);
  }

  // ---------- why no chain may be stray ----------

  /** A NAT whose deletion failed, and a later one that meets it. Setting the later one again ends without an error;
      both chains are in the kernel, and they misbehave. */
  lemma StrayChainMisbehaves(a: PortNat, b: PortNat, k: FlowKey)
    requires Good(a) && Good(b) && a.name != b.name && ChainOf(a).PortsFit() && ChainOf(b).PortsFit()
    requires ChainOf(a).Covers(k) && ChainOf(b).Covers(k) && Meet(ChainOf(a), ChainOf(b))
    ensures var st, asked := State(map[a.name := a], map[a.name := ChainOf(a)]), [Asked(b, true, true)];
            var left := AfterSetNats(st, asked, {a.name});
            && SetNatsOk(left, asked, {})
            && Find(AfterSetNats(left, asked, {}).chains, a.name) == Some(ChainOf(a))
            && Find(AfterSetNats(left, asked, {}).chains, b.name) == Some(ChainOf(b))
    ensures !WellBehaved(ChainOf(a), ChainOf(b), k)
  {
    var st := State(map[a.name := a], map[a.name := ChainOf(a)]);
    Stuck(st, a.name, Asked(b, true, true));
    BesideStray(st, a.name, Asked(b, true, true));
    NamedTriple(a, b);
    MeetingIsMisbehaving(ChainOf(a), ChainOf(b), k);
  }

  lemma Stuck(st: State, stray: string, a: Asked)
    requires stray in st.held && stray in st.chains && a.portNat.name != stray
    ensures Find(AfterSetNats(AfterSetNats(st, [a], {stray}), [a], {}).chains, stray) == Some(st.chains[stray])
  {
    var failed, again := NatConvergence.Call([a], {stray}), NatConvergence.Call([a], {});
    InNames([a], stray);
    FailedDeletionSticks(st, failed, [again], stray);
    assert [again][..0] == [];
    var left := AfterSetNats(st, [a], {stray});
    assert RunFrom(left, [again]) == AfterSetNats(left, [a], {});
  }

  /** A new NAT is installed beside a chain that is stuck, and setting it again changes nothing. */
  lemma BesideStray(st: State, stray: string, a: Asked)
    requires st.held.Keys == {stray} && st.chains.Keys == {stray} && a.portNat.name != stray
    requires Good(a.portNat) && a.init && a.up
    ensures var left := AfterSetNats(st, [a], {stray});
            && SetNatsOk(left, [a], {})
            && Find(AfterSetNats(left, [a], {}).chains, a.portNat.name) == Some(ChainOf(a.portNat))
  {
    var k, n := a.portNat.name, a.portNat;
    var left := AfterSetNats(st, [a], {stray});
    SetsAt(AfterDeletes(st, Gone(st, [a]), {stray}), [a], 0);
    ExactIsNear(n, n);
    SlotConverges(Slot(None, None), a);
    assert At(left, k) == Slot(Some(n), Some(ChainOf(n)));
    SlotConverges(At(left, k), a);
    SetNatsOkAt(left, [a], {});
    SetNatsAt(left, [a], {}, k);
  }

  /** For instance, port 8080 of a VIP after the NAT from 80 to 8080 could not be deleted. */
  lemma StrayChainExample(vips: seq<Vip>, k: FlowKey)
    requires DisjointVips(vips) && ChainOf(PortNat("", 80, 8080, TCP, vips)).Covers(k)
    ensures var a := PortNat(NatName(80, 8080, TCP), 80, 8080, TCP, vips);
            var b := PortNat(NatName(8080, 9090, TCP), 8080, 9090, TCP, vips);
            var st, asked := State(map[a.name := a], map[a.name := ChainOf(a)]), [Asked(b, true, true)];
            var left := AfterSetNats(st, asked, {a.name});
            && SetNatsOk(left, asked, {})
            && Find(AfterSetNats(left, asked, {}).chains, a.name) == Some(ChainOf(a))
            && Find(AfterSetNats(left, asked, {}).chains, b.name) == Some(ChainOf(b))
            && !WellBehaved(ChainOf(a), ChainOf(b), k)
  {
    var a := PortNat(NatName(80, 8080, TCP), 80, 8080, TCP, vips);
    var b := PortNat(NatName(8080, 9090, TCP), 8080, 9090, TCP, vips);
    NamedTriple(a, b);
    StrayChainMisbehaves(a, b, k);
  }
}
