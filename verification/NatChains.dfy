/** What the chains of all port NATs do together: they sit on one hook with one priority, so every packet goes
    through every chain, in an order nothing fixes (pkg/nat/nat.go). */
module NatChains {
  import opened Addresses
  import opened IntervalSets
  import opened PortNatAdmission
  import opened NatRules

  datatype Chain = Chain(port: nat, target: nat, protocol: Protocol, set4: set<Element>, set6: set<Element>) {
    ghost function Lookup(nfproto: bv8): set<Element> { if nfproto == AF_INET then set4 else set6 }

    ghost predicate Covers(k: FlowKey)
    {
      k.Sized() && k.l4 == ParseL4Proto(protocol) && Represents(Lookup(k.nfproto), k.addr)
    }

    predicate PortsFit() { port < 65536 && target < 65536 }
  }

  /** The part of a packet that decides whether a VIP matches. */
  datatype FlowKey = FlowKey(nfproto: bv8, l4: bv8, addr: Bytes) {
    predicate Sized()
    {
      (nfproto == AF_INET && |addr| == 4) || (nfproto == AF_INET6 && |addr| == 16)
    }
  }

  /** The two rules for one address family. */
  ghost function RunFamily(c: Chain, l3: bv8, lookup: set<Element>, p: Packet): (r: Packet)
    ensures WellFormed(p) ==> WellFormed(r)
  {
    var l4 := ParseL4Proto(c.protocol);
    Exec(BuildSrcRule(l3, l4, c.port, c.target), lookup, [],
         Exec(BuildDestRule(l3, l4, c.port, c.target), lookup, [], p))
  }

  /** The four rules, in the order they are added to the chain. */
  ghost function RunChain(c: Chain, p: Packet): (r: Packet)
    ensures WellFormed(p) ==> WellFormed(r)
  {
    RunFamily(c, AF_INET6, c.set6, RunFamily(c, AF_INET, c.set4, p))
  }

  ghost function RunChains(cs: seq<Chain>, p: Packet): (r: Packet)
    ensures WellFormed(p) ==> WellFormed(r)
  {
    if |cs| == 0 then p else RunChains(cs[1..], RunChain(cs[0], p))
  }

  // ---------- one port field at a time ----------

  /** Towards the target the exposed port is looked for; on the way back, the target port. */
  function From(c: Chain, back: bool): Bytes { EncodePort(if back then c.target else c.port) }

  function To(c: Chain, back: bool): Bytes { EncodePort(if back then c.port else c.target) }

  ghost predicate Fires(c: Chain, k: FlowKey, back: bool, x: Bytes)
  {
    c.Covers(k) && x == From(c, back)
  }

  ghost function Step(c: Chain, k: FlowKey, back: bool, x: Bytes): (y: Bytes)
    ensures |x| == 2 ==> |y| == 2
  {
    if Fires(c, k, back, x) then To(c, back) else x
  }

  /** The field after all chains. */
  ghost function Fold(cs: seq<Chain>, k: FlowKey, back: bool, x: Bytes): (y: Bytes)
    ensures |x| == 2 ==> |y| == 2
  {
    if |cs| == 0 then x else Fold(cs[1..], k, back, Step(cs[0], k, back, x))
  }

  /** How many chains rewrite the field. */
  ghost function Rewrites(cs: seq<Chain>, k: FlowKey, back: bool, x: Bytes): nat
  {
    if |cs| == 0 then 0
    else (if Fires(cs[0], k, back, x) then 1 else 0) + Rewrites(cs[1..], k, back, Step(cs[0], k, back, x))
  }

  function SrcKey(p: Packet): FlowKey
    requires WellFormed(p)
  {
    FlowKey(p.nfproto, p.l4proto, Src(p))
  }

  function DstKey(p: Packet): FlowKey
    requires WellFormed(p)
  {
    FlowKey(p.nfproto, p.l4proto, Dst(p))
  }

  /** What a chain covering the packet's addresses makes of it. */
  ghost function Stepped(c: Chain, p: Packet): Packet
    requires WellFormed(p)
  {
    WithPorts(p, Step(c, SrcKey(p), true, SrcPort(p)), Step(c, DstKey(p), false, DstPort(p)),
              p.tracked && !Fires(c, SrcKey(p), true, SrcPort(p)) && !Fires(c, DstKey(p), false, DstPort(p)))
  }

  lemma DestPart(c: Chain, l3: bv8, p: Packet)
    requires WellFormed(p) && (l3 == AF_INET || l3 == AF_INET6)
    ensures var fires := p.nfproto == l3 && Fires(c, DstKey(p), false, DstPort(p));
            Exec(BuildDestRule(l3, ParseL4Proto(c.protocol), c.port, c.target), c.Lookup(l3), [], p) ==
            if fires then WithPorts(p, SrcPort(p), EncodePort(c.target), false) else p
  {
    DestRuleMeaning(l3, ParseL4Proto(c.protocol), c.port, c.target, c.Lookup(l3), p);
  }

  lemma SrcPart(c: Chain, l3: bv8, p: Packet)
    requires WellFormed(p) && (l3 == AF_INET || l3 == AF_INET6)
    ensures var fires := p.nfproto == l3 && Fires(c, SrcKey(p), true, SrcPort(p));
            Exec(BuildSrcRule(l3, ParseL4Proto(c.protocol), c.port, c.target), c.Lookup(l3), [], p) ==
            if fires then WithPorts(p, EncodePort(c.port), DstPort(p), false) else p
  {
    SrcRuleMeaning(l3, ParseL4Proto(c.protocol), c.port, c.target, c.Lookup(l3), p);
  }

  lemma FamilyMeaning(c: Chain, l3: bv8, p: Packet)
    requires WellFormed(p) && (l3 == AF_INET || l3 == AF_INET6)
    ensures RunFamily(c, l3, c.Lookup(l3), p) == if p.nfproto == l3 then Stepped(c, p) else p
  {
    DestPart(c, l3, p);
    var q := Exec(BuildDestRule(l3, ParseL4Proto(c.protocol), c.port, c.target), c.Lookup(l3), [], p);
    SrcPart(c, l3, q);
    WithOwnPorts(p);
    WithPortsTwice(p, SrcPort(p), EncodePort(c.target), false, EncodePort(c.port), EncodePort(c.target), false);
  }

  lemma ChainMeaning(c: Chain, p: Packet)
    requires WellFormed(p)
    ensures RunChain(c, p) == Stepped(c, p)
  {
    FamilyMeaning(c, AF_INET, p);
    FamilyMeaning(c, AF_INET6, RunFamily(c, AF_INET, c.set4, p));
  }

  /** The chains rewrite the two port fields independently and leave the rest of the packet alone. */
  lemma {:induction false} ChainsMeaning(cs: seq<Chain>, p: Packet)
    requires WellFormed(p)
    ensures RunChains(cs, p) ==
            WithPorts(p, Fold(cs, SrcKey(p), true, SrcPort(p)), Fold(cs, DstKey(p), false, DstPort(p)),
                      p.tracked && Rewrites(cs, SrcKey(p), true, SrcPort(p)) == 0
                                && Rewrites(cs, DstKey(p), false, DstPort(p)) == 0)
  {
    if |cs| == 0 {
      WithOwnPorts(p);
    } else {
      ChainMeaning(cs[0], p);
      var q := RunChain(cs[0], p);
      ChainsMeaning(cs[1..], q);
      WithPortsTwice(p, SrcPort(q), DstPort(q), q.tracked,
                     Fold(cs[1..], SrcKey(q), true, SrcPort(q)), Fold(cs[1..], DstKey(q), false, DstPort(q)),
                     RunChains(cs[1..], q).tracked);
    }
  }

  // ---------- chains that keep apart ----------

  predicate Meet(c: Chain, d: Chain)
  {
    c.port == d.port || c.port == d.target || c.target == d.port || c.target == d.target
  }

  /** Different chains that match a common address and protocol have no port number in common. */
  ghost predicate Apart(cs: seq<Chain>)
  {
    && (forall c :: c in cs ==> c.PortsFit())
    && (forall c, d, k :: c in cs && d in cs && c != d && c.Covers(k) && d.Covers(k) ==> !Meet(c, d))
  }

  /** Some chain listed rewrites this value of the field. */
  ghost predicate Rewritable(cs: seq<Chain>, k: FlowKey, back: bool, x: Bytes)
  {
    exists c :: c in cs && Fires(c, k, back, x)
  }

  /** A value is rewritten by at most one of the chains, and no other chain rewrites the result. */
  lemma OnlyOneFires(cs: seq<Chain>, c: Chain, d: Chain, k: FlowKey, back: bool, x: Bytes)
    requires Apart(cs) && c in cs && d in cs && Fires(c, k, back, x)
    ensures Fires(d, k, back, x) ==> c == d
    ensures Fires(d, k, back, To(c, back)) ==> c == d
    ensures Fires(d, k, !back, To(c, back)) ==> c == d
    ensures Fires(d, k, !back, x) ==> c == d
  {
    if c != d && d.Covers(k) {
      assert !Meet(c, d);
      var a, b := if back then c.target else c.port, if back then c.port else c.target;
      PortDiffers(a, d); PortDiffers(b, d);
    }
  }

  lemma PortDiffers(a: nat, d: Chain)
    requires a < 65536 && d.PortsFit() && a != d.port && a != d.target
    ensures EncodePort(a) != EncodePort(d.port) && EncodePort(a) != EncodePort(d.target)
  {
    if EncodePort(a) == EncodePort(d.port) { EncodePortInjective(a, d.port); }
    if EncodePort(a) == EncodePort(d.target) { EncodePortInjective(a, d.target); }
  }

  /** The result of all chains, whatever their order: the one chain that matches decides. */
  lemma {:induction false} FoldResult(cs: seq<Chain>, k: FlowKey, back: bool, x: Bytes)
    requires Apart(cs)
    ensures forall c :: c in cs && Fires(c, k, back, x) ==> Fold(cs, k, back, x) == To(c, back)
    ensures !Rewritable(cs, k, back, x) ==> Fold(cs, k, back, x) == x
    ensures Rewrites(cs, k, back, x) > 0 <==> Rewritable(cs, k, back, x)
    ensures Distinct(cs) ==> Rewrites(cs, k, back, x) <= 1
  {
    if |cs| > 0 {
      var c, rest := cs[0], cs[1..];
      assert forall d :: d in cs <==> d == c || d in rest;
      var y := Step(c, k, back, x);
      FoldResult(rest, k, back, y);
      if Fires(c, k, back, x) {
        forall d | d in cs ensures Fires(d, k, back, x) ==> d == c {
          OnlyOneFires(cs, c, d, k, back, x);
        }
        forall d | d in rest ensures Fires(d, k, back, y) ==> d == c {
          OnlyOneFires(cs, c, d, k, back, x);
        }
      }
    }
  }

  /** The order of the chains does not matter, and each port field is rewritten at most once. */
  lemma OrderIrrelevant(cs: seq<Chain>, ds: seq<Chain>, p: Packet)
    requires Apart(cs) && Distinct(cs) && Distinct(ds) && Members(cs) == Members(ds) && WellFormed(p)
    ensures RunChains(cs, p) == RunChains(ds, p)
    ensures Rewrites(cs, SrcKey(p), true, SrcPort(p)) <= 1 && Rewrites(cs, DstKey(p), false, DstPort(p)) <= 1
  {
    assert forall c :: c in cs <==> c in ds by {
      forall c ensures c in cs <==> c in ds {
        assert c in Members(cs) <==> c in Members(ds);
      }
    }
    SameFold(cs, ds, SrcKey(p), true, SrcPort(p));
    SameFold(cs, ds, DstKey(p), false, DstPort(p));
    ChainsMeaning(cs, p);
    ChainsMeaning(ds, p);
  }

  lemma SameFold(cs: seq<Chain>, ds: seq<Chain>, k: FlowKey, back: bool, x: Bytes)
    requires Apart(cs) && Distinct(cs) && Distinct(ds) && forall c :: c in cs <==> c in ds
    ensures Fold(cs, k, back, x) == Fold(ds, k, back, x)
    ensures Rewrites(cs, k, back, x) == Rewrites(ds, k, back, x) <= 1
  {
    FoldResult(cs, k, back, x);
    FoldResult(ds, k, back, x);
    if Rewritable(cs, k, back, x) {
      var c :| c in cs && Fires(c, k, back, x);
      assert c in ds;
    }
  }

  // ---------- replies ----------

  /** `x` is the target port of another port on this VIP and protocol. */
  ghost predicate Shadowed(cs: seq<Chain>, k: FlowKey, x: Bytes)
  {
    exists c :: c in cs && c.Covers(k) && x == EncodePort(c.target) && c.port != c.target
  }

  lemma BackAgain(cs: seq<Chain>, k: FlowKey, x: Bytes)
    requires Apart(cs)
    ensures Fold(cs, k, true, Fold(cs, k, false, x)) == x <==> !Shadowed(cs, k, x)
  {
    FoldResult(cs, k, false, x);
    var y := Fold(cs, k, false, x);
    FoldResult(cs, k, true, y);
    if Rewritable(cs, k, false, x) {
      var c :| c in cs && Fires(c, k, false, x);
      assert Fires(c, k, true, y);
      forall d | d in cs && d.Covers(k) && x == EncodePort(d.target) ensures d.port == d.target {
        OnlyOneFires(cs, c, d, k, false, x);
        EncodePortInjective(d.target, c.port);
      }
    } else if Shadowed(cs, k, x) {
      var c :| c in cs && c.Covers(k) && x == EncodePort(c.target) && c.port != c.target;
      assert Fires(c, k, true, x);
      if EncodePort(c.port) == x { EncodePortInjective(c.port, c.target); }
    }
  }

  /** A reply to a translated packet leaves the VIP with the port the client had asked for, if and only if that
      port is not the target port of another port of the VIP. */
  lemma ReplyRestores(cs: seq<Chain>, p: Packet, reply: Packet)
    requires Apart(cs) && WellFormed(p) && WellFormed(reply) && SrcKey(reply) == DstKey(p)
    requires SrcPort(reply) == DstPort(RunChains(cs, p))
    ensures SrcPort(RunChains(cs, reply)) == DstPort(p) <==> !Shadowed(cs, DstKey(p), DstPort(p))
  {
    ChainsMeaning(cs, p);
    ChainsMeaning(cs, reply);
    BackAgain(cs, DstKey(p), DstPort(p));
  }
}
