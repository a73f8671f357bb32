/** Which destination-port NATs a conduit may list together (api/v1/conduit_webhook.go). */
module PortNatAdmission {
  import opened Texts

  datatype Protocol = TCP | UDP | SCTP {
    function Name(): string
    {
      match this
      case TCP => "tcp"
      case UDP => "udp"
      case SCTP => "sctp"
    }
  }

  datatype PortNatSpec = PortNatSpec(port: nat, targetPort: nat, vips: seq<string>, protocol: Protocol)

  // ---------- keys ----------

  /** "%d-%d-%s", also the name of the chain a NAT is installed under. */
  function NatName(port: nat, targetPort: nat, protocol: Protocol): string
  {
    Decimal(port) + "-" + (Decimal(targetPort) + "-" + protocol.Name())
  }

  /** "%d-%s-%s"; a VIP name may contain dashes. */
  function VipKey(port: nat, vip: string, protocol: Protocol): string
  {
    Decimal(port) + "-" + (vip + "-" + protocol.Name())
  }

  lemma DecimalInjective(m: nat, n: nat)
    requires Decimal(m) == Decimal(n)
    ensures m == n
  {
    DecimalRoundTrip(m);
    DecimalRoundTrip(n);
  }

  lemma ProtocolNames(p: Protocol, q: Protocol)
    ensures DashFree(p.Name()) && (p.Name() == q.Name() ==> p == q)
  {
    assert "tcp"[0] == 't' && "udp"[0] == 'u' && "sctp"[0] == 's';
  }

  lemma VipKeyInjective(port: nat, vip: string, protocol: Protocol, port': nat, vip': string, protocol': Protocol)
    requires VipKey(port, vip, protocol) == VipKey(port', vip', protocol')
    ensures port == port' && vip == vip' && protocol == protocol'
  {
    DecimalRoundTrip(port);
    DecimalRoundTrip(port');
    DigitsAreDashFree(Decimal(port));
    DigitsAreDashFree(Decimal(port'));
    HeadUnique(Decimal(port), vip + "-" + protocol.Name(), Decimal(port'), vip' + "-" + protocol'.Name());
    DecimalInjective(port, port');
    ProtocolNames(protocol, protocol');
    ProtocolNames(protocol', protocol);
    TailUnique(vip, protocol.Name(), vip', protocol'.Name());
  }

  lemma NatNameInjective(port: nat, target: nat, protocol: Protocol, port': nat, target': nat, protocol': Protocol)
    requires NatName(port, target, protocol) == NatName(port', target', protocol')
    ensures port == port' && target == target' && protocol == protocol'
  {
    VipKeyInjective(port, Decimal(target), protocol, port', Decimal(target'), protocol');
    DecimalInjective(target, target');
  }

  /** For instance, the name of a NAT from 80 to 8080. */
  lemma NatNameText()
    ensures NatName(80, 8080, TCP) == "80-8080-tcp"
  {
    assert Decimal(8) == "8" && Decimal(80) == "80";
    assert Decimal(808) == "808";
    assert Decimal(8080) == "8080";
    assert "80" + "-" + ("8080" + "-" + "tcp") == "80-8080-tcp";
  }

  // ---------- what may coexist ----------

  predicate SameTriple(a: PortNatSpec, b: PortNatSpec)
  {
    a.port == b.port && a.targetPort == b.targetPort && a.protocol == b.protocol
  }

  /** The two entries use a common port number, as exposed port or as target port. */
  predicate PortsMeet(a: PortNatSpec, b: PortNatSpec)
  {
    a.port == b.port || a.port == b.targetPort || a.targetPort == b.port || a.targetPort == b.targetPort
  }

  ghost predicate ShareVip(a: PortNatSpec, b: PortNatSpec)
  {
    a.protocol == b.protocol && exists v :: v in a.vips && v in b.vips
  }

  ghost predicate NoRepeat(vips: seq<string>)
  {
    forall x, y :: 0 <= x < y < |vips| ==> vips[x] != vips[y]
  }

  ghost predicate Compatible(specs: seq<PortNatSpec>)
  {
    && (forall i, j :: 0 <= i < j < |specs| ==> !SameTriple(specs[i], specs[j]))
    && (forall i :: 0 <= i < |specs| ==> NoRepeat(specs[i].vips))
    && (forall i, j :: 0 <= i < j < |specs| && ShareVip(specs[i], specs[j]) ==> !PortsMeet(specs[i], specs[j]))
  }

  datatype Verdict = Accepted | MustBeMerged(i: nat, j: nat) | Colliding(i: nat, j: nat)

  /** A use of a VIP: position `vip` in the list of entry `entry`. */
  datatype Use = Use(entry: nat, vip: nat)

  ghost predicate Done(specs: seq<PortNatSpec>, i: nat, k: nat, u: Use)
  {
    u.entry < |specs| && u.vip < |specs[u.entry].vips| && (u.entry < i || (u.entry == i && u.vip < k))
  }

  ghost predicate Clash(specs: seq<PortNatSpec>, u: Use, w: Use)
    requires u.entry < |specs| && u.vip < |specs[u.entry].vips|
    requires w.entry < |specs| && w.vip < |specs[w.entry].vips|
  {
    var a, b := specs[u.entry], specs[w.entry];
    a.protocol == b.protocol && a.vips[u.vip] == b.vips[w.vip] && PortsMeet(a, b)
  }

  ghost predicate NoClash(specs: seq<PortNatSpec>, i: nat, k: nat)
  {
    forall u, w :: Done(specs, i, k, u) && Done(specs, i, k, w) && u != w ==> !Clash(specs, u, w)
  }

  function KeyOf(specs: seq<PortNatSpec>, u: Use, target: bool): string
    requires u.entry < |specs| && u.vip < |specs[u.entry].vips|
  {
    var s := specs[u.entry];
    VipKey(if target then s.targetPort else s.port, s.vips[u.vip], s.protocol)
  }

  /** Every use seen so far left its key in the map. */
  ghost predicate Complete(m: map<string, nat>, specs: seq<PortNatSpec>, i: nat, k: nat, target: bool)
  {
    forall u :: Done(specs, i, k, u) ==> KeyOf(specs, u, target) in m
  }

  /** Every key in the map was left by a use seen so far, and leads back to its entry. */
  ghost predicate Sound(m: map<string, nat>, specs: seq<PortNatSpec>, i: nat, k: nat, target: bool)
  {
    forall key :: key in m ==> LeftBy(key, m[key], specs, i, k, target)
  }

  ghost predicate LeftBy(key: string, e: nat, specs: seq<PortNatSpec>, i: nat, k: nat, target: bool)
  {
    exists u :: Done(specs, i, k, u) && KeyOf(specs, u, target) == key && e == u.entry
  }

  ghost predicate Holds(m: map<string, nat>, specs: seq<PortNatSpec>, i: nat, k: nat, target: bool)
  {
    Complete(m, specs, i, k, target) && Sound(m, specs, i, k, target)
  }

  /** A key met again comes from a use of the same VIP and protocol with a port in common. */
  lemma MetAgain(m: map<string, nat>, specs: seq<PortNatSpec>, i: nat, k: nat, target: bool, now: bool)
    requires i < |specs| && k < |specs[i].vips| && Holds(m, specs, i, k, target)
    requires KeyOf(specs, Use(i, k), now) in m
    ensures var e := m[KeyOf(specs, Use(i, k), now)]; e <= i && Collision(specs, e, i)
  {
    var key := KeyOf(specs, Use(i, k), now);
    assert LeftBy(key, m[key], specs, i, k, target);
    var u :| Done(specs, i, k, u) && KeyOf(specs, u, target) == key && m[key] == u.entry;
    var a, b := specs[u.entry], specs[i];
    VipKeyInjective(if target then a.targetPort else a.port, a.vips[u.vip], a.protocol,
                    if now then b.targetPort else b.port, b.vips[k], b.protocol);
    assert a.vips[u.vip] in a.vips && b.vips[k] in b.vips;
  }

  lemma NoClashWith(ts: map<string, nat>, ps: map<string, nat>, specs: seq<PortNatSpec>, i: nat, k: nat, w: Use)
    requires i < |specs| && k < |specs[i].vips| && Done(specs, i, k, w)
    requires KeyOf(specs, w, true) in ts && KeyOf(specs, w, false) in ps
    requires KeyOf(specs, Use(i, k), true) !in ts && KeyOf(specs, Use(i, k), false) !in ts
    requires KeyOf(specs, Use(i, k), true) !in ps && KeyOf(specs, Use(i, k), false) !in ps
    ensures !Clash(specs, Use(i, k), w) && !Clash(specs, w, Use(i, k))
  {
  }

  lemma NotMetYet(ts: map<string, nat>, ps: map<string, nat>, specs: seq<PortNatSpec>, i: nat, k: nat)
    requires i < |specs| && k < |specs[i].vips| && NoClash(specs, i, k)
    requires Complete(ts, specs, i, k, true) && Complete(ps, specs, i, k, false)
    requires KeyOf(specs, Use(i, k), true) !in ts && KeyOf(specs, Use(i, k), false) !in ts
    requires KeyOf(specs, Use(i, k), true) !in ps && KeyOf(specs, Use(i, k), false) !in ps
    ensures NoClash(specs, i, k + 1)
  {
    var now := Use(i, k);
    forall w | Done(specs, i, k, w) ensures !Clash(specs, now, w) && !Clash(specs, w, now) {
      NoClashWith(ts, ps, specs, i, k, w);
    }
    assert forall u :: Done(specs, i, k + 1, u) <==> Done(specs, i, k, u) || u == now;
  }

  lemma HoldsOneMore(m: map<string, nat>, specs: seq<PortNatSpec>, i: nat, k: nat, target: bool)
    requires i < |specs| && k < |specs[i].vips| && Holds(m, specs, i, k, target)
    ensures Holds(m[KeyOf(specs, Use(i, k), target) := i], specs, i, k + 1, target)
  {
    var key := KeyOf(specs, Use(i, k), target);
    var m' := m[key := i];
    forall u | Done(specs, i, k + 1, u) ensures KeyOf(specs, u, target) in m' {
      assert u == Use(i, k) || Done(specs, i, k, u);
    }
    forall other | other in m' ensures LeftBy(other, m'[other], specs, i, k + 1, target) {
      if other == key {
        assert Done(specs, i, k + 1, Use(i, k));
      } else {
        assert LeftBy(other, m[other], specs, i, k, target);
        var u :| Done(specs, i, k, u) && KeyOf(specs, u, target) == other && m[other] == u.entry;
        assert Done(specs, i, k + 1, u);
      }
    }
  }

  lemma HoldsNextEntry(m: map<string, nat>, specs: seq<PortNatSpec>, i: nat, target: bool)
    requires i < |specs| && Holds(m, specs, i, |specs[i].vips|, target)
    ensures Holds(m, specs, i + 1, 0, target)
  {
    var n := |specs[i].vips|;
    assert forall u :: Done(specs, i, n, u) <==> Done(specs, i + 1, 0, u);
    forall key | key in m ensures LeftBy(key, m[key], specs, i + 1, 0, target) {
      assert LeftBy(key, m[key], specs, i, n, target);
    }
  }

  lemma NoClashNextEntry(specs: seq<PortNatSpec>, i: nat)
    requires i < |specs| && NoClash(specs, i, |specs[i].vips|)
    ensures NoClash(specs, i + 1, 0)
  {
    assert forall u :: Done(specs, i, |specs[i].vips|, u) <==> Done(specs, i + 1, 0, u);
  }

  lemma NoClashIsCompatible(specs: seq<PortNatSpec>)
    requires forall i, j :: 0 <= i < j < |specs| ==> !SameTriple(specs[i], specs[j])
    requires NoClash(specs, |specs|, 0)
    ensures Compatible(specs)
  {
    forall i, j | 0 <= i < j < |specs| && ShareVip(specs[i], specs[j]) ensures !PortsMeet(specs[i], specs[j]) {
      var v :| v in specs[i].vips && v in specs[j].vips;
      var x :| 0 <= x < |specs[i].vips| && specs[i].vips[x] == v;
      var y :| 0 <= y < |specs[j].vips| && specs[j].vips[y] == v;
      assert Done(specs, |specs|, 0, Use(i, x)) && Done(specs, |specs|, 0, Use(j, y));
    }
    forall i | 0 <= i < |specs| ensures NoRepeat(specs[i].vips) {
      forall x, y | 0 <= x < y < |specs[i].vips| ensures specs[i].vips[x] != specs[i].vips[y] {
        assert Done(specs, |specs|, 0, Use(i, x)) && Done(specs, |specs|, 0, Use(i, y));
      }
    }
  }

  /** The triples of the first `i` entries, under their names, all different. */
  ghost predicate Triples(m: map<string, nat>, specs: seq<PortNatSpec>, i: nat)
  {
    && i <= |specs|
    && (forall a :: 0 <= a < i ==> NameOf(specs[a]) in m && m[NameOf(specs[a])] == a)
    && (forall key :: key in m ==> m[key] < i && NameOf(specs[m[key]]) == key)
  }

  function NameOf(s: PortNatSpec): string { NatName(s.port, s.targetPort, s.protocol) }

  lemma NameOfInjective(a: PortNatSpec, b: PortNatSpec)
    ensures NameOf(a) == NameOf(b) <==> SameTriple(a, b)
  {
    if NameOf(a) == NameOf(b) {
      NatNameInjective(a.port, a.targetPort, a.protocol, b.port, b.targetPort, b.protocol);
    }
  }

  lemma TriplesDiffer(m: map<string, nat>, specs: seq<PortNatSpec>, i: nat)
    requires Triples(m, specs, i)
    ensures forall a, b :: 0 <= a < b < i ==> !SameTriple(specs[a], specs[b])
  {
    forall a, b | 0 <= a < b < i ensures !SameTriple(specs[a], specs[b]) {
      NameOfInjective(specs[a], specs[b]);
    }
  }

  lemma TriplesOneMore(m: map<string, nat>, specs: seq<PortNatSpec>, i: nat)
    requires i < |specs| && Triples(m, specs, i) && NameOf(specs[i]) !in m
    ensures Triples(m[NameOf(specs[i]) := i], specs, i + 1)
  {
    var m' := m[NameOf(specs[i]) := i];
    forall a | 0 <= a < i + 1 ensures NameOf(specs[a]) in m' && m'[NameOf(specs[a])] == a {
      if a < i {
        assert NameOf(specs[a]) in m;
      }
    }
  }

  lemma TripleMetAgain(m: map<string, nat>, specs: seq<PortNatSpec>, i: nat)
    requires i < |specs| && Triples(m, specs, i) && NameOf(specs[i]) in m
    ensures var e := m[NameOf(specs[i])]; e < i && SameTriple(specs[e], specs[i])
    ensures !Compatible(specs)
  {
    var e := m[NameOf(specs[i])];
    NameOfInjective(specs[e], specs[i]);
  }

  method ValidatePortNat(specs: seq<PortNatSpec>) returns (v: Verdict)
    ensures v == Accepted <==> Compatible(specs)
    ensures v.MustBeMerged? ==> v.i < v.j < |specs| && SameTriple(specs[v.i], specs[v.j])
    ensures v.Colliding? ==> v.i <= v.j < |specs| && Collision(specs, v.i, v.j)
  {
    var targets: map<string, nat>, ports: map<string, nat>, triples: map<string, nat> := map[], map[], map[];
    for i := 0 to |specs|
      invariant Holds(targets, specs, i, 0, true) && Holds(ports, specs, i, 0, false)
      invariant NoClash(specs, i, 0) && Triples(triples, specs, i)
    {
      var triple := NameOf(specs[i]);
      if triple in triples {
        TripleMetAgain(triples, specs, i);
        return MustBeMerged(triples[triple], i);
      }
      TriplesOneMore(triples, specs, i);
      triples := triples[triple := i];
      v, targets, ports := ValidateVips(specs, i, targets, ports);
      if v.Colliding? {
        CollisionIsIncompatible(specs, v.i, i);
        return;
      }
      HoldsNextEntry(targets, specs, i, true);
      HoldsNextEntry(ports, specs, i, false);
      NoClashNextEntry(specs, i);
    }
    TriplesDiffer(triples, specs, |specs|);
    NoClashIsCompatible(specs);
    v := Accepted;
  }

  /** Entry `i` collides with `j`: they share a VIP, a protocol and a port, or one entry repeats a VIP. */
  ghost predicate Collision(specs: seq<PortNatSpec>, i: nat, j: nat)
    requires i <= j < |specs|
  {
    if i < j then ShareVip(specs[i], specs[j]) && PortsMeet(specs[i], specs[j]) else !NoRepeat(specs[i].vips)
  }

  lemma CollisionIsIncompatible(specs: seq<PortNatSpec>, i: nat, j: nat)
    requires i <= j < |specs| && Collision(specs, i, j)
    ensures !Compatible(specs)
  {
  }

  /** The inner loop, over the VIPs of entry `i`. */
  method ValidateVips(specs: seq<PortNatSpec>, i: nat, targets0: map<string, nat>, ports0: map<string, nat>)
    returns (v: Verdict, targets: map<string, nat>, ports: map<string, nat>)
    requires i < |specs| && NoClash(specs, i, 0)
    requires Holds(targets0, specs, i, 0, true) && Holds(ports0, specs, i, 0, false)
    ensures v == Accepted || (v.Colliding? && v.i <= v.j == i && Collision(specs, v.i, i))
    ensures v == Accepted ==> NoClash(specs, i, |specs[i].vips|)
    ensures v == Accepted ==> Holds(targets, specs, i, |specs[i].vips|, true)
    ensures v == Accepted ==> Holds(ports, specs, i, |specs[i].vips|, false)
  {
    targets, ports := targets0, ports0;
    var pn := specs[i];
    for k := 0 to |pn.vips|
      invariant NoClash(specs, i, k) && Holds(targets, specs, i, k, true) && Holds(ports, specs, i, k, false)
    {
      var targetKey := KeyOf(specs, Use(i, k), true);
      var portKey := KeyOf(specs, Use(i, k), false);
      if targetKey in targets {
        MetAgain(targets, specs, i, k, true, true);
        return Colliding(targets[targetKey], i), targets, ports;
      }
      if portKey in targets {
        MetAgain(targets, specs, i, k, true, false);
        return Colliding(targets[portKey], i), targets, ports;
      }
      if targetKey in ports {
        MetAgain(ports, specs, i, k, false, true);
        return Colliding(ports[targetKey], i), targets, ports;
      }
      if portKey in ports {
        MetAgain(ports, specs, i, k, false, false);
        return Colliding(ports[portKey], i), targets, ports;
      }
      NotMetYet(targets, ports, specs, i, k);
      HoldsOneMore(targets, specs, i, k, true);
      HoldsOneMore(ports, specs, i, k, false);
      targets := targets[targetKey := i];
      ports := ports[portKey := i];
    }
    v := Accepted;
  }
}
