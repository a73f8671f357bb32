/** The byte loops of pkg/nat/nat.go and pkg/kernel/nftset.go, which build their result in a buffer in place. */
module AddressLoops {
  import opened Addresses

  /** Adds one to the number in `buf`, from the last byte towards the first, stopping at the first byte
      that does not wrap. */
  method Carry(buf: array<bv8>)
    modifies buf
    ensures buf[..] == NextOf(old(buf[..]))
  {
    ghost var was, now := buf[..], buf[..];
    var i := buf.Length - 1;
    assert was[..i + 1] == was;
    while i >= 0
      invariant -1 <= i < buf.Length && buf[..] == now && Carrying(was, now, i)
    {
      CarryOver(was, now, i);
      now := now[i := buf[i] + 1];
      buf[i] := buf[i] + 1;
      if buf[i] != 0 {
        return;
      }
      i := i - 1;
    }
  }

  /** The bytes behind `i` are done, those up to `i` are as they were and still to be incremented. */
  ghost predicate Carrying(was: Bytes, now: Bytes, i: int)
    requires -1 <= i < |was| == |now|
  {
    now[..i + 1] == was[..i + 1] && NextOf(was) == NextOf(was[..i + 1]) + now[i + 1..]
  }

  lemma CarryOver(was: Bytes, now: Bytes, i: nat)
    requires i < |was| == |now| && Carrying(was, now, i)
    ensures now[i] == was[i]
    ensures was[i] + 1 != 0 ==> NextOf(was) == now[i := was[i] + 1]
    ensures was[i] + 1 == 0 ==> Carrying(was, now[i := 0], i - 1)
  {
    var head := was[..i + 1];
    assert now[..i + 1][i] == head[i] && head[..i] == was[..i];
    assert now[..i] == now[..i + 1][..i];
    Splice(now, i, was[i] + 1);
    assert NextOf(head) == if was[i] + 1 == 0 then NextOf(was[..i]) + [0] else was[..i] + [was[i] + 1];
  }

  lemma Splice<T>(s: seq<T>, i: nat, x: T)
    requires i < |s|
    ensures s[i := x][..i] == s[..i] && s[i := x][i..] == [x] + s[i + 1..] && s[i := x] == s[..i] + [x] + s[i + 1..]
  {
  }

  /** Fills `buf` with the network bytes, all host bits set. */
  method FillHostBits(p: Prefix, buf: array<bv8>)
    requires buf.Length == |p.ip|
    modifies buf
    ensures buf[..] == BroadcastOf(p)
  {
    var mask := Mask(|p.ip|, p.ones);
    for i := 0 to |p.ip|
      invariant forall j :: 0 <= j < i ==> buf[j] == BroadcastOf(p)[j]
    {
      buf[i] := p.ip[i] | !mask[i];
    }
  }

  method BroadcastFromIpNet(p: Prefix) returns (b: Bytes)
    ensures |b| == |p.ip| && b == BroadcastOf(p)
    ensures p.Canonical() ==> Value(b) == Value(p.ip) + Pow2(p.HostBits()) - 1
    ensures p.Canonical() ==> forall a: Bytes :: p.Contains(a) ==> Value(a) <= Value(b)
  {
    var buf := new bv8[|p.ip|];
    FillHostBits(p, buf);
    b := buf[..];
    if p.Canonical() {
      BroadcastValue(p);
      forall a: Bytes | p.Contains(a) ensures Value(a) <= Value(b) {
        ContainsIsInterval(p, a);
      }
    }
  }

  method NextIP(ip: Bytes) returns (next: Bytes)
    ensures |next| == |ip| && next == NextOf(ip)
    ensures Value(next) == (Value(ip) + 1) % Pow256(|ip|)
  {
    var buf := new bv8[|ip|](i requires 0 <= i < |ip| => ip[i]);
    assert buf[..] == ip;
    Carry(buf);
    next := buf[..];
    NextOfValue(ip);
    ValueBound(ip);
    ModOfAtMost(Value(ip) + 1, Pow256(|ip|));
  }

  method EndAddress(p: Prefix) returns (end: Bytes)
    ensures |end| == |p.ip| && end == EndOf(p)
    ensures p.Canonical() ==> Value(end) == (Value(p.ip) + Pow2(p.HostBits())) % Pow256(|p.ip|)
    ensures p.Canonical() && Value(end) != 0 ==>
      forall a: Bytes :: |a| == |p.ip| ==> (p.Contains(a) <==> Value(p.ip) <= Value(a) < Value(end))
  {
    var buf := new bv8[|p.ip|];
    FillHostBits(p, buf);
    Carry(buf);
    end := buf[..];
    if p.Canonical() {
      EndOfValue(p);
      forall a: Bytes | |a| == |p.ip| && Value(end) != 0
        ensures p.Contains(a) <==> Value(p.ip) <= Value(a) < Value(end)
      {
        EndOfCloses(p, a);
      }
    }
  }
}
