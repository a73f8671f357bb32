/** The nftables rules of a port NAT (pkg/nat/nat.go) as programs over header bytes, and what they do to a packet. */
module NatRules {
  import opened Addresses
  import opened IntervalSets
  import opened PortNatAdmission

  const AF_INET: bv8 := 2
  const AF_INET6: bv8 := 10

  datatype Base = NetworkHeader | TransportHeader

  /** The nftables expressions used; there is one register. */
  datatype Expr =
    | MetaNfproto
    | MetaL4proto
    | Cmp(data: Bytes)
    | PayloadLoad(base: Base, offset: nat, len: nat)
    | Lookup
    | Immediate(data: Bytes)
    | PayloadWrite(base: Base, offset: nat, len: nat)
    | Counter
    | Notrack

  datatype Packet = Packet(nfproto: bv8, l4proto: bv8, network: Bytes, transport: Bytes, tracked: bool) {
    function Header(b: Base): Bytes { if b.NetworkHeader? then network else transport }

    function WithHeader(b: Base, h: Bytes): Packet
    {
      if b.NetworkHeader? then this.(network := h) else this.(transport := h)
    }
  }

  /** Runs the expressions in order; a failed comparison, lookup or load ends the rule. */
  ghost function Exec(exprs: seq<Expr>, lookup: set<Element>, reg: Bytes, p: Packet): (r: Packet)
    ensures r.nfproto == p.nfproto && r.l4proto == p.l4proto
    ensures |r.network| == |p.network| && |r.transport| == |p.transport|
  {
    if |exprs| == 0 then p
    else
      var rest := exprs[1..];
      match exprs[0]
      case MetaNfproto => Exec(rest, lookup, [p.nfproto], p)
      case MetaL4proto => Exec(rest, lookup, [p.l4proto], p)
      case Cmp(data) => if reg == data then Exec(rest, lookup, reg, p) else p
      case PayloadLoad(b, o, l) =>
        if o + l <= |p.Header(b)| then Exec(rest, lookup, p.Header(b)[o..o + l], p) else p
      case Lookup => if Represents(lookup, reg) then Exec(rest, lookup, reg, p) else p
      case Immediate(data) => Exec(rest, lookup, data, p)
      case PayloadWrite(b, o, l) =>
        var h := p.Header(b);
        if |reg| == l && o + l <= |h| then Exec(rest, lookup, reg, p.WithHeader(b, h[..o] + reg + h[o + l..])) else p
      case Counter => Exec(rest, lookup, reg, p)
      case Notrack => Exec(rest, lookup, reg, p.(tracked := false))
  }

  /** encodePort: the low 16 bits in network byte order. */
  function EncodePort(port: nat): (r: Bytes)
    ensures |r| == 2 && r[0] as int == port / 256 % 256 && r[1] as int == port % 256
  {
    [ByteOf(port / 256 % 256), ByteOf(port % 256)]
  }

  /** The byte with that value, counted up from zero. */
  function ByteOf(x: nat): (b: bv8)
    requires x < 256
    ensures b as int == x
  {
    if x == 0 then 0
    else
      Increment(ByteOf(x - 1));
      ByteOf(x - 1) + 1
  }

  lemma PortDigits(p: nat, q: nat)
    requires p < 65536 && q < 65536 && p / 256 % 256 == q / 256 % 256 && p % 256 == q % 256
    ensures p == q
  {
    assert p / 256 < 256 && q / 256 < 256;
  }

  lemma EncodePortInjective(p: nat, q: nat)
    requires p < 65536 && q < 65536 && EncodePort(p) == EncodePort(q)
    ensures p == q
  {
    var e, f := EncodePort(p), EncodePort(q);
    assert e[0] as int == f[0] as int && e[1] as int == f[1] as int;
    PortDigits(p, q);
  }

  function ParseL4Proto(protocol: Protocol): bv8
  {
    match protocol
    case TCP => 6
    case UDP => 17
    case SCTP => 132
  }

  /** buildDestRule: for packets to a VIP, the exposed port becomes the target port. */
  function BuildDestRule(l3: bv8, l4: bv8, port: nat, targetPort: nat): seq<Expr>
  {
    [ MetaNfproto, Cmp([l3]),
      PayloadLoad(NetworkHeader, if l3 == AF_INET then 16 else 24, if l3 == AF_INET then 4 else 16), Lookup,
      MetaL4proto, Cmp([l4]),
      PayloadLoad(TransportHeader, 2, 2), Cmp(EncodePort(port)),
      Immediate(EncodePort(targetPort)), PayloadWrite(TransportHeader, 2, 2), Counter, Notrack ]
  }

  /** buildSrcRule: for packets from a VIP, the target port becomes the exposed port. */
  function BuildSrcRule(l3: bv8, l4: bv8, port: nat, targetPort: nat): seq<Expr>
  {
    [ MetaNfproto, Cmp([l3]),
      PayloadLoad(NetworkHeader, if l3 == AF_INET then 12 else 8, if l3 == AF_INET then 4 else 16), Lookup,
      MetaL4proto, Cmp([l4]),
      PayloadLoad(TransportHeader, 0, 2), Cmp(EncodePort(targetPort)),
      Immediate(EncodePort(port)), PayloadWrite(TransportHeader, 0, 2), Counter, Notrack ]
  }

  // ---------- fields ----------

  predicate WellFormed(p: Packet)
  {
    && (p.nfproto == AF_INET || p.nfproto == AF_INET6)
    && |p.network| >= (if p.nfproto == AF_INET then 20 else 40)
    && |p.transport| >= 4
  }

  function Src(p: Packet): Bytes
    requires WellFormed(p)
  {
    if p.nfproto == AF_INET then p.network[12..16] else p.network[8..24]
  }

  function Dst(p: Packet): Bytes
    requires WellFormed(p)
  {
    if p.nfproto == AF_INET then p.network[16..20] else p.network[24..40]
  }

  function SrcPort(p: Packet): Bytes
    requires WellFormed(p)
  {
    p.transport[0..2]
  }

  function DstPort(p: Packet): Bytes
    requires WellFormed(p)
  {
    p.transport[2..4]
  }

  function WithPorts(p: Packet, sport: Bytes, dport: Bytes, tracked: bool): (r: Packet)
    requires WellFormed(p) && |sport| == |dport| == 2
    ensures WellFormed(r) && SrcPort(r) == sport && DstPort(r) == dport && Src(r) == Src(p) && Dst(r) == Dst(p)
  {
    var r := p.(transport := sport + dport + p.transport[4..], tracked := tracked);
    assert r.transport[0..2] == sport && r.transport[2..4] == dport;
    r
  }

  lemma WithOwnPorts(p: Packet)
    requires WellFormed(p)
    ensures WithPorts(p, SrcPort(p), DstPort(p), p.tracked) == p
  {
    assert p.transport == p.transport[0..2] + p.transport[2..4] + p.transport[4..];
  }

  lemma WithPortsTwice(p: Packet, s: Bytes, d: Bytes, t: bool, s': Bytes, d': Bytes, t': bool)
    requires WellFormed(p) && |s| == |d| == |s'| == |d'| == 2
    ensures WithPorts(WithPorts(p, s, d, t), s', d', t') == WithPorts(p, s', d', t')
  {
    assert (s + d + p.transport[4..])[4..] == p.transport[4..];
  }

  // ---------- what a rule does ----------

  lemma ExecNfproto(x: bv8, rest: seq<Expr>, lookup: set<Element>, reg: Bytes, p: Packet)
    ensures Exec([MetaNfproto, Cmp([x])] + rest, lookup, reg, p) ==
            if p.nfproto == x then Exec(rest, lookup, [x], p) else p
  {
    var r := [MetaNfproto, Cmp([x])] + rest;
    assert r[1..] == [Cmp([x])] + rest && r[1..][1..] == rest;
  }

  lemma ExecL4proto(x: bv8, rest: seq<Expr>, lookup: set<Element>, reg: Bytes, p: Packet)
    ensures Exec([MetaL4proto, Cmp([x])] + rest, lookup, reg, p) ==
            if p.l4proto == x then Exec(rest, lookup, [x], p) else p
  {
    var r := [MetaL4proto, Cmp([x])] + rest;
    assert r[1..] == [Cmp([x])] + rest && r[1..][1..] == rest;
  }

  lemma ExecLookup(o: nat, l: nat, rest: seq<Expr>, lookup: set<Element>, reg: Bytes, p: Packet)
    ensures Exec([PayloadLoad(NetworkHeader, o, l), Lookup] + rest, lookup, reg, p) ==
            if o + l <= |p.network| && Represents(lookup, p.network[o..o + l])
            then Exec(rest, lookup, p.network[o..o + l], p) else p
  {
    var r := [PayloadLoad(NetworkHeader, o, l), Lookup] + rest;
    assert r[1..] == [Lookup] + rest && r[1..][1..] == rest;
  }

  lemma ExecPort(o: nat, seen: Bytes, rest: seq<Expr>, lookup: set<Element>, reg: Bytes, p: Packet)
    ensures Exec([PayloadLoad(TransportHeader, o, 2), Cmp(seen)] + rest, lookup, reg, p) ==
            if o + 2 <= |p.transport| && p.transport[o..o + 2] == seen then Exec(rest, lookup, seen, p) else p
  {
    var r := [PayloadLoad(TransportHeader, o, 2), Cmp(seen)] + rest;
    assert r[1..] == [Cmp(seen)] + rest && r[1..][1..] == rest;
  }

  function Actions(o: nat, put: Bytes): seq<Expr>
  {
    [Immediate(put), PayloadWrite(TransportHeader, o, 2), Counter, Notrack]
  }

  lemma ExecActions(o: nat, put: Bytes, lookup: set<Element>, reg: Bytes, p: Packet)
    requires |put| == 2 && o + 2 <= |p.transport|
    ensures var t := p.transport;
            Exec(Actions(o, put), lookup, reg, p) ==
            p.(transport := t[..o] + put + t[o + 2..], tracked := false)
  {
    var r, t := Actions(o, put), p.transport;
    var q := p.(transport := t[..o] + put + t[o + 2..]);
    assert r[1..] == [PayloadWrite(TransportHeader, o, 2), Counter, Notrack];
    assert r[1..][1..] == [Counter, Notrack];
    assert Exec(r, lookup, reg, p) == Exec([Counter, Notrack], lookup, put, q);
    assert [Counter, Notrack][1..] == [Notrack];
    assert Exec([Counter, Notrack], lookup, put, q) == Exec([Notrack], lookup, put, q);
    assert [Notrack][1..] == [];
    assert Exec([], lookup, put, q.(tracked := false)) == q.(tracked := false);
  }

  lemma RuleMeaning(l3: bv8, o: nat, l: nat, l4: bv8, portAt: nat, seen: Bytes, put: Bytes, lookup: set<Element>,
                    p: Packet)
    requires |put| == 2
    ensures
      var rule := [ MetaNfproto, Cmp([l3]), PayloadLoad(NetworkHeader, o, l), Lookup, MetaL4proto, Cmp([l4]),
                    PayloadLoad(TransportHeader, portAt, 2), Cmp(seen) ] + Actions(portAt, put);
      var t := p.transport;
      Exec(rule, lookup, [], p) ==
        if p.nfproto == l3 && o + l <= |p.network| && Represents(lookup, p.network[o..o + l])
           && p.l4proto == l4 && portAt + 2 <= |t| && t[portAt..portAt + 2] == seen
        then p.(transport := t[..portAt] + put + t[portAt + 2..], tracked := false)
        else p
  {
    var r4 := [PayloadLoad(TransportHeader, portAt, 2), Cmp(seen)] + Actions(portAt, put);
    var r3 := [MetaL4proto, Cmp([l4])] + r4;
    var r2 := [PayloadLoad(NetworkHeader, o, l), Lookup] + r3;
    ExecNfproto(l3, r2, lookup, [], p);
    ExecLookup(o, l, r3, lookup, [l3], p);
    if o + l <= |p.network| {
      ExecL4proto(l4, r4, lookup, p.network[o..o + l], p);
    }
    ExecPort(portAt, seen, Actions(portAt, put), lookup, [l4], p);
    if portAt + 2 <= |p.transport| {
      ExecActions(portAt, put, lookup, seen, p);
    }
    assert [ MetaNfproto, Cmp([l3]), PayloadLoad(NetworkHeader, o, l), Lookup, MetaL4proto, Cmp([l4]),
             PayloadLoad(TransportHeader, portAt, 2), Cmp(seen) ] + Actions(portAt, put)
        == [MetaNfproto, Cmp([l3])] + r2;
  }

  /** The destination rule rewrites the destination port of packets to the set, and nothing else. */
  lemma DestRuleMeaning(l3: bv8, l4: bv8, port: nat, target: nat, lookup: set<Element>, p: Packet)
    requires WellFormed(p) && (l3 == AF_INET || l3 == AF_INET6)
    ensures Exec(BuildDestRule(l3, l4, port, target), lookup, [], p) ==
            if p.nfproto == l3 && p.l4proto == l4 && Represents(lookup, Dst(p)) && DstPort(p) == EncodePort(port)
            then WithPorts(p, SrcPort(p), EncodePort(target), false) else p
  {
    var o, l := if l3 == AF_INET then 16 else 24, if l3 == AF_INET then 4 else 16;
    RuleMeaning(l3, o, l, l4, 2, EncodePort(port), EncodePort(target), lookup, p);
    assert BuildDestRule(l3, l4, port, target) ==
           [ MetaNfproto, Cmp([l3]), PayloadLoad(NetworkHeader, o, l), Lookup, MetaL4proto, Cmp([l4]),
             PayloadLoad(TransportHeader, 2, 2), Cmp(EncodePort(port)) ] + Actions(2, EncodePort(target));
    assert p.transport[..2] == SrcPort(p);
  }

  /** The source rule rewrites the source port of packets from the set, and nothing else. */
  lemma SrcRuleMeaning(l3: bv8, l4: bv8, port: nat, target: nat, lookup: set<Element>, p: Packet)
    requires WellFormed(p) && (l3 == AF_INET || l3 == AF_INET6)
    ensures Exec(BuildSrcRule(l3, l4, port, target), lookup, [], p) ==
            if p.nfproto == l3 && p.l4proto == l4 && Represents(lookup, Src(p)) && SrcPort(p) == EncodePort(target)
            then WithPorts(p, EncodePort(port), DstPort(p), false) else p
  {
    var o, l := if l3 == AF_INET then 12 else 8, if l3 == AF_INET then 4 else 16;
    RuleMeaning(l3, o, l, l4, 0, EncodePort(target), EncodePort(port), lookup, p);
    assert BuildSrcRule(l3, l4, port, target) ==
           [ MetaNfproto, Cmp([l3]), PayloadLoad(NetworkHeader, o, l), Lookup, MetaL4proto, Cmp([l4]),
             PayloadLoad(TransportHeader, 0, 2), Cmp(EncodePort(target)) ] + Actions(0, EncodePort(port));
    assert p.transport[..0] + EncodePort(port) + p.transport[2..] ==
           EncodePort(port) + DstPort(p) + p.transport[4..];
  }
}
