/** The IP context a proxy sets for a target's connection (pkg/proxy/proxy.go). */
module ProxyContexts {
  import opened Addresses
  import opened Lists

  /** One route of a policy: destination and nexthop. */
  datatype Route = Route(prefix: string, nextHop: string)

  datatype PolicyRoute = PolicyRoute(source: CidrText, routes: seq<Route>)

  datatype IPContext = IPContext(src: seq<CidrText>, dst: seq<CidrText>, gateways: seq<CidrText>,
                                 policies: seq<PolicyRoute>)

  // ---------- old addresses ----------

  predicate IsV4(p: Prefix) { |p.ip| == 4 }

  /** The address lies in the subnet of one of the gateways. */
  predicate InGatewaySubnet(t: CidrText, gateways: seq<CidrText>)
    requires t.Cidr?
  {
    exists i :: 0 <= i < |gateways| && gateways[i].Cidr? && gateways[i].prefix.Contains(t.prefix.ip)
  }

  predicate Kept(t: CidrText, gateways: seq<CidrText>)
  {
    t.Cidr? && !InGatewaySubnet(t, gateways)
  }

  /** The addresses that stay, in order. */
  function Survivors(ips: seq<CidrText>, gateways: seq<CidrText>): (r: seq<CidrText>)
  {
    if |ips| == 0 then []
    else
      var n := |ips| - 1;
      Survivors(ips[..n], gateways) + (if Kept(ips[n], gateways) then [ips[n]] else [])
  }

  lemma {:induction false} InSurvivors(ips: seq<CidrText>, gateways: seq<CidrText>, t: CidrText)
    ensures t in Survivors(ips, gateways) <==> t in ips && Kept(t, gateways)
  {
    if |ips| > 0 {
      InSurvivors(ips[..|ips| - 1], gateways, t);
      assert ips == ips[..|ips| - 1] + [ips[|ips| - 1]];
    }
  }

  method RemoveOldIPs(ips: seq<CidrText>, gateways: seq<CidrText>) returns (res: seq<CidrText>)
    ensures res == Survivors(ips, gateways)
  {
    res := [];
    for i := 0 to |ips|
      invariant res == Survivors(ips[..i], gateways)
    {
      assert ips[..i + 1][..i] == ips[..i];
      if ips[i].Cidr? {
        var inSubnet := false;
        for j := 0 to |gateways|
          invariant inSubnet <==>
            exists k :: 0 <= k < j && gateways[k].Cidr? && gateways[k].prefix.Contains(ips[i].prefix.ip)
        {
          if gateways[j].Cidr? && gateways[j].prefix.Contains(ips[i].prefix.ip) {
            inSubnet := true;
          }
        }
        if !inSubnet {
          res := res + [ips[i]];
        }
      }
    }
    assert ips[..|ips|] == ips;
  }

  method ContainsAll(a: seq<CidrText>, b: seq<CidrText>) returns (r: bool)
    ensures r <==> Includes(a, b)
  {
    var aMap: set<CidrText> := {};
    for i := 0 to |a|
      invariant forall x :: x in aMap <==> x in a[..i]
    {
      assert a[..i + 1] == a[..i] + [a[i]];
      aMap := aMap + {a[i]};
    }
    assert a[..|a|] == a;
    for i := 0 to |b|
      invariant forall x :: x in b[..i] ==> x in a
    {
      assert b[..i + 1] == b[..i] + [b[i]];
      if b[i] !in aMap {
        return false;
      }
    }
    assert b[..|b|] == b;
    r := true;
  }

  predicate Includes(a: seq<CidrText>, b: seq<CidrText>)
  {
    forall x :: x in b ==> x in a
  }

  // ---------- policy routes ----------

  /** The address part of the last gateway of a family, "" without one. `show` prints an address. */
  function LastGateway(gateways: seq<CidrText>, v4: bool, show: Bytes -> string): string
  {
    if |gateways| == 0 then ""
    else
      var g := gateways[|gateways| - 1];
      if g.Cidr? && IsV4(g.prefix) == v4 then show(g.prefix.ip) else LastGateway(gateways[..|gateways| - 1], v4, show)
  }

  function Redirected(p: PolicyRoute, gateways: seq<CidrText>, show: Bytes -> string): PolicyRoute
  {
    if p.source.Malformed? then p
    else
      var hop := LastGateway(gateways, IsV4(p.source.prefix), show);
      p.(routes := seq(|p.routes|, i requires 0 <= i < |p.routes| => p.routes[i].(nextHop := hop)))
  }

  function RedirectedAll(ps: seq<PolicyRoute>, gateways: seq<CidrText>, show: Bytes -> string): (r: seq<PolicyRoute>)
    ensures |r| == |ps|
  {
    seq(|ps|, i requires 0 <= i < |ps| => Redirected(ps[i], gateways, show))
  }

  /** Position `i` has the last gateway of a family. */
  ghost predicate IsLast(gateways: seq<CidrText>, v4: bool, i: int)
  {
    && 0 <= i < |gateways| && gateways[i].Cidr? && (|gateways[i].prefix.ip| == 4) == v4
    && (forall j :: i < j < |gateways| && gateways[j].Cidr? ==> (|gateways[j].prefix.ip| == 4) != v4)
  }

  lemma {:induction false} LastGatewayIsLast(gateways: seq<CidrText>, v4: bool, show: Bytes -> string)
    ensures forall i :: IsLast(gateways, v4, i) ==> LastGateway(gateways, v4, show) == show(gateways[i].prefix.ip)
    ensures (forall i :: !IsLast(gateways, v4, i)) ==> LastGateway(gateways, v4, show) == ""
  {
    if |gateways| > 0 {
      var n := |gateways| - 1;
      var g, before := gateways[n], gateways[..n];
      LastGatewayIsLast(before, v4, show);
      if g.Cidr? && (|g.prefix.ip| == 4) == v4 {
        assert IsLast(gateways, v4, n);
      } else {
        forall i ensures IsLast(gateways, v4, i) <==> IsLast(before, v4, i) {
          assert 0 <= i < n ==> before[i] == gateways[i];
          assert forall j :: 0 <= j < n ==> before[j] == gateways[j];
        }
      }
    }
  }

  /** Every route of a policy with a parsable source gets the address of the last gateway of the source's family, or
      none without one; its destination and all other policies stay as they are. */
  lemma RedirectedToOwnFamily(p: PolicyRoute, gateways: seq<CidrText>, show: Bytes -> string, j: nat)
    requires j < |p.routes|
    ensures var r := Redirected(p, gateways, show);
            && r.source == p.source && |r.routes| == |p.routes| && r.routes[j].prefix == p.routes[j].prefix
            && (p.source.Malformed? ==> r == p)
            && (p.source.Cidr? ==>
                  var v4 := |p.source.prefix.ip| == 4;
                  && (forall i :: IsLast(gateways, v4, i) ==> r.routes[j].nextHop == show(gateways[i].prefix.ip))
                  && ((forall i :: !IsLast(gateways, v4, i)) ==> r.routes[j].nextHop == ""))
  {
    if p.source.Cidr? {
      LastGatewayIsLast(gateways, |p.source.prefix.ip| == 4, show);
    }
  }

  // ---------- the context ----------

  /** What a request's context becomes, given the allocated addresses and the bridge's prefixes. */
  function Updated(c: IPContext, src: seq<CidrText>, dst: seq<CidrText>, bridge: seq<CidrText>,
                   show: Bytes -> string): IPContext
  {
    if c.src == [] && c.dst == [] then c.(src := src, dst := dst, gateways := bridge)
    else if Includes(c.gateways, bridge) && Includes(c.src, src) && Includes(c.dst, dst) then c
    else Refreshed(c, src, dst, bridge, show)
  }

  /** Old addresses out, new ones in, gateways replaced. */
  function Refreshed(c: IPContext, src: seq<CidrText>, dst: seq<CidrText>, bridge: seq<CidrText>,
                     show: Bytes -> string): IPContext
  {
    IPContext(Survivors(c.src, c.gateways) + src, Survivors(c.dst, c.gateways) + dst, bridge,
              RedirectedAll(c.policies, bridge, show))
  }

  /** All allocated addresses and all gateways are in the context afterwards, and setting it again changes nothing. */
  lemma UpdatedSettles(c: IPContext, src: seq<CidrText>, dst: seq<CidrText>, bridge: seq<CidrText>,
                       show: Bytes -> string)
    ensures var r := Updated(c, src, dst, bridge, show);
            && (forall x :: x in src ==> x in r.src) && (forall x :: x in dst ==> x in r.dst)
            && (forall x :: x in bridge ==> x in r.gateways)
    ensures Updated(Updated(c, src, dst, bridge, show), src, dst, bridge, show) == Updated(c, src, dst, bridge, show)
  {
    var r := Updated(c, src, dst, bridge, show);
    assert Includes(r.src, src) && Includes(r.dst, dst) && Includes(r.gateways, bridge);
    assert src != [] ==> src[0] in r.src;
    assert dst != [] ==> dst[0] in r.dst;
  }

  /** A first request gets exactly the allocated addresses and the bridge's prefixes, and a context that has them all is
      left alone; policies change on an update only. */
  lemma UpdatedElsewhere(c: IPContext, src: seq<CidrText>, dst: seq<CidrText>, bridge: seq<CidrText>,
                         show: Bytes -> string)
    ensures c.src == [] && c.dst == [] ==> Updated(c, src, dst, bridge, show) == IPContext(src, dst, bridge, c.policies)
    ensures (&& (c.src != [] || c.dst != [])
             && (forall x :: x in src ==> x in c.src) && (forall x :: x in dst ==> x in c.dst)
             && (forall x :: x in bridge ==> x in c.gateways)) ==> Updated(c, src, dst, bridge, show) == c
  {
  }

  /** The address can be parsed, and no parsable gateway has it in its subnet. */
  ghost predicate Outside(t: CidrText, gateways: seq<CidrText>)
  {
    t.Cidr? && forall g :: g in gateways && g.Cidr? ==> !g.prefix.Contains(t.prefix.ip)
  }

  lemma KeptIsOutside(t: CidrText, gateways: seq<CidrText>)
    ensures Kept(t, gateways) <==> Outside(t, gateways)
  {
  }

  /** On an update, an old address stays if it can be parsed and lies outside the subnets of the old gateways, and the
      old ones come first, in their order. */
  lemma UpdateKeepsForeign(c: IPContext, src: seq<CidrText>, dst: seq<CidrText>, bridge: seq<CidrText>,
                           show: Bytes -> string)
    requires c.src != [] || c.dst != []
    requires (exists x :: x in src && x !in c.src) || (exists x :: x in dst && x !in c.dst)
             || (exists x :: x in bridge && x !in c.gateways)
    ensures var r := Updated(c, src, dst, bridge, show);
            && Subsequence(r.src[..|r.src| - |src|], c.src) && r.src[|r.src| - |src|..] == src
            && (forall t :: t in c.src ==> (t in r.src[..|r.src| - |src|] <==> Outside(t, c.gateways)))
            && Subsequence(r.dst[..|r.dst| - |dst|], c.dst) && r.dst[|r.dst| - |dst|..] == dst
            && (forall t :: t in c.dst ==> (t in r.dst[..|r.dst| - |dst|] <==> Outside(t, c.gateways)))
            && r.gateways == bridge && |r.policies| == |c.policies|
            && (forall i :: 0 <= i < |c.policies| ==> r.policies[i] == Redirected(c.policies[i], bridge, show))
  {
    var r := Updated(c, src, dst, bridge, show);
    assert r.src[..|r.src| - |src|] == Survivors(c.src, c.gateways);
    assert r.dst[..|r.dst| - |dst|] == Survivors(c.dst, c.gateways);
    SurvivorsInOrder(c.src, c.gateways);
    SurvivorsInOrder(c.dst, c.gateways);
    forall t ensures t in c.src ==> (t in Survivors(c.src, c.gateways) <==> Outside(t, c.gateways)) {
      InSurvivors(c.src, c.gateways, t);
      KeptIsOutside(t, c.gateways);
    }
    forall t ensures t in c.dst ==> (t in Survivors(c.dst, c.gateways) <==> Outside(t, c.gateways)) {
      InSurvivors(c.dst, c.gateways, t);
      KeptIsOutside(t, c.gateways);
    }
  }

  lemma {:induction false} SurvivorsInOrder(ips: seq<CidrText>, gateways: seq<CidrText>)
    ensures Subsequence(Survivors(ips, gateways), ips)
  {
    if |ips| > 0 {
      var n := |ips| - 1;
      SurvivorsInOrder(ips[..n], gateways);
      assert ips == ips[..n] + [ips[n]];
      SubsequenceOneMore(Survivors(ips[..n], gateways), ips[..n], ips[n], Kept(ips[n], gateways));
    }
  }

  /** The context of a request, changed in place. */
  class RequestContext {
    var src: seq<CidrText>
    var dst: seq<CidrText>
    var gateways: seq<CidrText>
    var policies: seq<PolicyRoute>

    function Current(): IPContext
      reads this
    {
      IPContext(src, dst, gateways, policies)
    }

    method SetNSEIpContext(newSrc: seq<CidrText>, newDst: seq<CidrText>, bridge: seq<CidrText>, show: Bytes -> string)
      modifies this
      ensures Current() == Updated(old(Current()), newSrc, newDst, bridge, show)
    {
      if |src| == 0 && |dst| == 0 {
        src, dst, gateways := newSrc, newDst, bridge;
        return;
      }
      var hasGateways := ContainsAll(gateways, bridge);
      var hasSrc := ContainsAll(src, newSrc);
      var hasDst := ContainsAll(dst, newDst);
      if hasGateways && hasSrc && hasDst {
        return;
      }
      Refresh(newSrc, newDst, bridge, show);
    }

    method Refresh(newSrc: seq<CidrText>, newDst: seq<CidrText>, bridge: seq<CidrText>, show: Bytes -> string)
      modifies this
      ensures Current() == Refreshed(old(Current()), newSrc, newDst, bridge, show)
    {
      var oldGateways := gateways;
      gateways := bridge;
      src := RemoveOldIPs(src, oldGateways);
      dst := RemoveOldIPs(dst, oldGateways);
      src := src + newSrc;
      dst := dst + newDst;
      UpdatePolicyRoutes(show);
    }

    method UpdatePolicyRoutes(show: Bytes -> string)
      modifies this`policies
      ensures policies == RedirectedAll(old(policies), gateways, show)
    {
      var gatewayV4, gatewayV6 := "", "";
      for i := 0 to |gateways|
        invariant gatewayV4 == LastGateway(gateways[..i], true, show)
        invariant gatewayV6 == LastGateway(gateways[..i], false, show)
      {
        assert gateways[..i + 1][..i] == gateways[..i];
        if gateways[i].Cidr? {
          if IsV4(gateways[i].prefix) {
            gatewayV4 := show(gateways[i].prefix.ip);
          } else {
            gatewayV6 := show(gateways[i].prefix.ip);
          }
        }
      }
      assert gateways[..|gateways|] == gateways;
      ghost var before := policies;
      for i := 0 to |policies|
        invariant |policies| == |before| && policies[i..] == before[i..]
        invariant policies[..i] == RedirectedAll(before, gateways, show)[..i]
      {
        var p := policies[i];
        assert p == policies[i..][0] == before[i];
        if p.source.Cidr? {
          var hop := if IsV4(p.source.prefix) then gatewayV4 else gatewayV6;
          for j := 0 to |p.routes|
            invariant |p.routes| == |before[i].routes| && p.source == before[i].source
            invariant forall k :: 0 <= k < j ==> p.routes[k] == before[i].routes[k].(nextHop := hop)
            invariant forall k :: j <= k < |p.routes| ==> p.routes[k] == before[i].routes[k]
          {
            p := p.(routes := p.routes[j := p.routes[j].(nextHop := hop)]);
          }
        }
        assert p == Redirected(before[i], gateways, show);
        policies := policies[i := p];
      }
    }
  }
}
