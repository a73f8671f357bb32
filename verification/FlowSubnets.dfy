/** Admission of a flow's source subnets (api/v1/flow_webhook.go, api/v1/types.go). */
module FlowSubnets {
  import opened Addresses
  import opened IntervalSets

  predicate SubnetContainsSubnet(outer: Prefix, inner: Prefix)
  {
    || (outer.ones == inner.ones && outer.ip == inner.ip)
    || (outer.ones < inner.ones && outer.Contains(inner.ip))
  }

  predicate SubnetsOverlap(a: Prefix, b: Prefix)
  {
    SubnetContainsSubnet(a, b) || SubnetContainsSubnet(b, a)
  }

  /** A text that names a prefix without host bits. */
  predicate ValidPrefix(t: CidrText)
  {
    t.Cidr? && t.prefix.Sized() && t.prefix.ip == t.prefix.Network().ip
  }

  lemma MaskMonotone(x: bv8, k: nat, l: nat)
    requires k <= l <= 8
    ensures (x & MaskByte(l)) & MaskByte(k) == x & MaskByte(k)
  {
  }

  lemma {:induction false} ShortMaskAfterLong(a: Bytes, k: nat, l: nat)
    requires k <= l
    ensures MaskedBy(MaskedBy(a, Mask(|a|, l)), Mask(|a|, k)) == MaskedBy(a, Mask(|a|, k))
  {
    forall i | 0 <= i < |a|
      ensures MaskedBy(MaskedBy(a, Mask(|a|, l)), Mask(|a|, k))[i] == MaskedBy(a, Mask(|a|, k))[i]
    {
      MaskMonotone(a[i], OnesInByte(k, i), OnesInByte(l, i));
    }
  }

  /** Two prefixes share an address only when one contains the other. */
  lemma SharedAddressMeansNested(p: Prefix, q: Prefix, a: Bytes)
    requires p.Canonical() && q.Canonical() && p.ones <= q.ones && p.Contains(a) && q.Contains(a)
    ensures SubnetContainsSubnet(p, q)
  {
    ShortMaskAfterLong(a, p.ones, q.ones);
  }

  lemma OverlapIsSharedAddress(p: Prefix, q: Prefix)
    requires p.Canonical() && q.Canonical()
    ensures SubnetsOverlap(p, q) <==> !Disjoint(p, q)
  {
    if SubnetContainsSubnet(p, q) {
      assert p.Contains(q.ip) && q.Contains(q.ip);
    } else if SubnetContainsSubnet(q, p) {
      assert q.Contains(p.ip) && p.Contains(p.ip);
    }
    if !Disjoint(p, q) {
      var a: Bytes :| p.Contains(a) && q.Contains(a);
      if p.ones <= q.ones {
        SharedAddressMeansNested(p, q, a);
      } else {
        SharedAddressMeansNested(q, p, a);
      }
    }
  }

  datatype Verdict = Accepted | BadPrefix(i: nat) | Overlapping(i: nat, j: nat)

  /** The address of the text is that of its network exactly when no host bit is set. */
  lemma ValidIsCanonical(t: CidrText)
    ensures ValidPrefix(t) <==> t.Cidr? && t.prefix.Canonical()
  {
  }

  /** Every text names a canonical prefix and no address lies in two of them. */
  ghost predicate DisjointSubnets(subnets: seq<CidrText>)
  {
    && (forall i :: 0 <= i < |subnets| ==> subnets[i].Cidr? && subnets[i].prefix.Canonical())
    && (forall i, j :: 0 <= i < j < |subnets| ==> Disjoint(subnets[i].prefix, subnets[j].prefix))
  }

  method ValidateSubnets(subnets: seq<CidrText>) returns (v: Verdict)
    ensures v == Accepted <==> DisjointSubnets(subnets)
    ensures v.BadPrefix? ==>
      && v.i < |subnets| && DisjointSubnets(subnets[..v.i])
      && !(subnets[v.i].Cidr? && subnets[v.i].prefix.Canonical())
    ensures v.Overlapping? ==>
      && v.j < v.i < |subnets| && DisjointSubnets(subnets[..v.i])
      && subnets[v.i].Cidr? && subnets[v.i].prefix.Canonical()
      && !Disjoint(subnets[v.j].prefix, subnets[v.i].prefix)
  {
    var kept: seq<Prefix> := [];
    for i := 0 to |subnets|
      invariant |kept| == i && DisjointSubnets(subnets[..i])
      invariant forall k :: 0 <= k < i ==> kept[k] == subnets[k].prefix
    {
      ValidIsCanonical(subnets[i]);
      if !ValidPrefix(subnets[i]) {
        return BadPrefix(i);
      }
      var n := subnets[i].prefix;
      assert n.Canonical();
      for j := 0 to |kept|
        invariant forall k :: 0 <= k < j ==> Disjoint(subnets[k].prefix, n)
      {
        assert subnets[..i][j].prefix.Canonical();
        OverlapIsSharedAddress(n, kept[j]);
        if SubnetsOverlap(n, kept[j]) {
          assert !Disjoint(subnets[j].prefix, n);
          return Overlapping(i, j);
        }
      }
      kept := kept + [n];
      assert subnets[..i + 1] == subnets[..i] + [subnets[i]];
    }
    assert subnets[..|subnets|] == subnets;
    v := Accepted;
  }
}
