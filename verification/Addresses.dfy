/** Network addresses as big-endian byte strings of any width, CIDR prefixes over
    them, and the byte loops that turn a prefix into the half-open interval an
    nftables interval set stores. Bit-level facts are proved one byte at a time
    over `bv8`; carries and intervals are proved over the bytes read as digits. */
module Addresses {

  datatype Option<+T> = None | Some(value: T)

  type Bytes = seq<bv8>

  // ---------- digits ----------

  function Pow2(n: nat): (r: nat)
    ensures r > 0
  {
    if n == 0 then 1 else 2 * Pow2(n - 1)
  }

  function Pow256(n: nat): (r: nat)
    ensures r > 0
  {
    if n == 0 then 1 else 256 * Pow256(n - 1)
  }

  ghost predicate Digits(s: seq<int>)
  {
    forall i :: 0 <= i < |s| ==> 0 <= s[i] < 256
  }

  function DigitsOf(a: Bytes): (s: seq<int>)
    ensures |s| == |a| && Digits(s)
  {
    seq(|a|, i requires 0 <= i < |a| => a[i] as int)
  }

  /** The big-endian value of a string of base-256 digits. */
  function Number(s: seq<int>): int
  {
    if |s| == 0 then 0 else 256 * Number(s[..|s| - 1]) + s[|s| - 1]
  }

  function Value(a: Bytes): int { Number(DigitsOf(a)) }

  lemma {:induction false} NumberBound(s: seq<int>)
    requires Digits(s)
    ensures 0 <= Number(s) < Pow256(|s|)
  {
    if |s| > 0 {
      NumberBound(s[..|s| - 1]);
    }
  }

  lemma {:induction false} NumberInjective(s: seq<int>, t: seq<int>)
    requires |s| == |t| && Digits(s) && Digits(t) && Number(s) == Number(t)
    ensures s == t
  {
    if |s| > 0 {
      var n := |s| - 1;
      assert Number(s[..n]) == Number(t[..n]);
      NumberInjective(s[..n], t[..n]);
      assert s == s[..n] + [s[n]] && t == t[..n] + [t[n]];
    }
  }

  lemma ValueInjective(a: Bytes, b: Bytes)
    requires |a| == |b| && Value(a) == Value(b)
    ensures a == b
  {
    NumberInjective(DigitsOf(a), DigitsOf(b));
    forall i | 0 <= i < |a| ensures a[i] == b[i] {
      assert DigitsOf(a)[i] == DigitsOf(b)[i];
    }
  }

  lemma ValueBound(a: Bytes)
    ensures 0 <= Value(a) < Pow256(|a|)
  {
    NumberBound(DigitsOf(a));
  }

  // ---------- masks ----------

  /** The byte whose `ones` leading bits are set. */
  function MaskByte(ones: nat): (m: bv8)
    requires ones <= 8
  {
    match ones
    case 0 => 0x00
    case 1 => 0x80
    case 2 => 0xC0
    case 3 => 0xE0
    case 4 => 0xF0
    case 5 => 0xF8
    case 6 => 0xFC
    case 7 => 0xFE
    case _ => 0xFF
  }

  /** The number of values a byte takes once its `ones` leading bits are fixed. */
  function FreeValues(ones: nat): (r: nat)
    requires ones <= 8
  {
    match ones
    case 0 => 256
    case 1 => 128
    case 2 => 64
    case 3 => 32
    case 4 => 16
    case 5 => 8
    case 6 => 4
    case 7 => 2
    case _ => 1
  }

  /** How many of the `ones` leading mask bits fall in byte `i`. */
  function OnesInByte(ones: nat, i: nat): (k: nat)
    ensures k <= 8
  {
    if ones <= 8 * i then 0 else if ones >= 8 * i + 8 then 8 else ones - 8 * i
  }

  /** The `width`-byte mask with `ones` leading bits set. */
  function Mask(width: nat, ones: nat): (m: Bytes)
    ensures |m| == width
  {
    seq(width, i requires 0 <= i < width => MaskByte(OnesInByte(ones, i)))
  }

  function MaskedBy(a: Bytes, m: Bytes): (r: Bytes)
    requires |a| == |m|
    ensures |r| == |a|
  {
    seq(|a|, i requires 0 <= i < |a| => a[i] & m[i])
  }

  /** Within one byte, matching a mask is lying in an interval. */
  lemma MaskByteInterval(x: bv8, y: bv8, k: nat)
    requires k <= 8 && x & MaskByte(k) == x
    ensures y & MaskByte(k) == x <==> x as int <= y as int < x as int + FreeValues(k)
  {
    if k <= 4 {
      MaskByteIntervalShort(x, y, k);
    } else {
      MaskByteIntervalLong(x, y, k);
    }
  }

  lemma MaskByteIntervalShort(x: bv8, y: bv8, k: nat)
    requires k <= 4 && x & MaskByte(k) == x
    ensures y & MaskByte(k) == x <==> x as int <= y as int < x as int + FreeValues(k)
  {
  }

  lemma MaskByteIntervalLong(x: bv8, y: bv8, k: nat)
    requires 4 < k <= 8 && x & MaskByte(k) == x
    ensures y & MaskByte(k) == x <==> x as int <= y as int < x as int + FreeValues(k)
  {
  }

  /** Within one byte, setting the free bits reaches the end of that interval. */
  lemma MaskByteFill(x: bv8, k: nat)
    requires k <= 8 && x & MaskByte(k) == x
    ensures (x | !MaskByte(k)) as int == x as int + FreeValues(k) - 1
  {
  }

  lemma Increment(x: bv8)
    ensures (x + 1) as int == (if x as int == 255 then 0 else x as int + 1)
    ensures x + 1 == 0 <==> x as int == 255
  {
  }

  lemma {:induction false} FreeValuesIsPow2(ones: nat)
    requires ones <= 8
    ensures FreeValues(ones) == Pow2(8 - ones)
    decreases 8 - ones
  {
    if ones < 8 {
      FreeValuesIsPow2(ones + 1);
    }
  }

  lemma Pow2Plus8(n: nat)
    ensures Pow2(n + 8) == 256 * Pow2(n)
  {
    assert Pow2(n + 2) == 4 * Pow2(n);
    assert Pow2(n + 4) == 4 * Pow2(n + 2);
    assert Pow2(n + 6) == 4 * Pow2(n + 4);
  }

  // ---------- prefixes ----------

  /** A prefix as in section 3.1 of RFC 4632: an address and a number of leading mask bits. */
  datatype Prefix = Prefix(ip: Bytes, ones: nat) {
    predicate Sized() { ones <= 8 * |ip| }

    /** No host bit is set. */
    predicate Canonical() { Sized() && MaskedBy(ip, Mask(|ip|, ones)) == ip }

    function HostBits(): nat
      requires Sized()
    {
      8 * |ip| - ones
    }

    /** `net.IPNet.Contains`: same width, and equal under the mask. */
    predicate Contains(a: Bytes)
    {
      |a| == |ip| && MaskedBy(a, Mask(|ip|, ones)) == MaskedBy(ip, Mask(|ip|, ones))
    }

    /** The network `net.ParseCIDR` returns beside the address. */
    function Network(): (n: Prefix)
      requires Sized()
      ensures n.Canonical() && n.ones == ones && |n.ip| == |ip|
      ensures forall a :: n.Contains(a) <==> Contains(a)
    {
      var n := Prefix(MaskedBy(ip, Mask(|ip|, ones)), ones);
      MaskedTwice(ip, Mask(|ip|, ones));
      n
    }
  }

  /** A text and what `net.ParseCIDR` makes of it. */
  datatype CidrText = Malformed(text: string) | Cidr(text: string, prefix: Prefix)

  predicate Usable(t: CidrText, width: nat)
  {
    t.Cidr? && t.prefix.Sized() && |t.prefix.ip| == width
  }

  lemma MaskedTwice(a: Bytes, m: Bytes)
    requires |a| == |m|
    ensures MaskedBy(MaskedBy(a, m), m) == MaskedBy(a, m)
  {
    forall i | 0 <= i < |a| ensures (a[i] & m[i]) & m[i] == a[i] & m[i] {}
  }

  /** All host bits set. */
  function BroadcastOf(p: Prefix): (r: Bytes)
    ensures |r| == |p.ip|
  {
    var m := Mask(|p.ip|, p.ones);
    seq(|p.ip|, i requires 0 <= i < |p.ip| => p.ip[i] | !m[i])
  }

  /** One more than `a`, wrapping to all zeros. */
  function NextOf(a: Bytes): (r: Bytes)
    ensures |r| == |a|
  {
    if |a| == 0 then []
    else
      var n := |a| - 1;
      if a[n] + 1 == 0 then NextOf(a[..n]) + [0] else a[..n] + [a[n] + 1]
  }

  function EndOf(p: Prefix): (r: Bytes)
    ensures |r| == |p.ip|
  {
    NextOf(BroadcastOf(p))
  }

  // ---------- carries ----------

  lemma {:induction false} NextOfValue(a: Bytes)
    ensures Value(NextOf(a)) == (if Value(a) + 1 == Pow256(|a|) then 0 else Value(a) + 1)
  {
    ValueBound(a);
    if |a| > 0 {
      var n := |a| - 1;
      NextOfValue(a[..n]);
      ValueBound(a[..n]);
      Increment(a[n]);
      var r := NextOf(a);
      assert DigitsOf(a)[..n] == DigitsOf(a[..n]);
      assert DigitsOf(r)[..n] == DigitsOf(r[..n]);
      assert r[..n] == if a[n] + 1 == 0 then NextOf(a[..n]) else a[..n];
    }
  }

  lemma NextOfInjective(a: Bytes, b: Bytes)
    requires |a| == |b| && NextOf(a) == NextOf(b)
    ensures a == b
  {
    NextOfValue(a);
    NextOfValue(b);
    ValueBound(a);
    ValueBound(b);
    ValueInjective(a, b);
  }

  // ---------- a prefix is an interval of numbers ----------

  /** `a` matches `lo` under `ones` leading bits, said digit by digit without bit operations. */
  ghost predicate InBox(lo: seq<int>, ones: nat, a: seq<int>)
    requires |a| == |lo|
  {
    forall i :: 0 <= i < |lo| ==> lo[i] <= a[i] < lo[i] + FreeValues(OnesInByte(ones, i))
  }

  /** Free digits start at zero and no digit interval overflows its digit. */
  ghost predicate Aligned(lo: seq<int>, ones: nat)
  {
    Digits(lo) && ones <= 8 * |lo|
    && forall i :: 0 <= i < |lo| ==> lo[i] + FreeValues(OnesInByte(ones, i)) <= 256
  }

  function ShorterOnes(width: nat, ones: nat): nat
    requires width > 0
  {
    if ones <= 8 * (width - 1) then ones else 8 * (width - 1)
  }

  lemma ShorterBox(lo: seq<int>, ones: nat, a: seq<int>)
    requires |a| == |lo| > 0 && Aligned(lo, ones)
    ensures var n := |lo| - 1; var o := ShorterOnes(|lo|, ones); var k := OnesInByte(ones, n);
            && Aligned(lo[..n], o)
            && (InBox(lo, ones, a) <==> InBox(lo[..n], o, a[..n]) && lo[n] <= a[n] < lo[n] + FreeValues(k))
            && (if k == 0 then Pow2(8 * |lo| - ones) == 256 * Pow2(8 * n - o) && FreeValues(k) == 256
                else Pow2(8 * |lo| - ones) == FreeValues(k) && Pow2(8 * n - o) == 1)
  {
    var n := |lo| - 1;
    var o, k := ShorterOnes(|lo|, ones), OnesInByte(ones, n);
    assert forall i :: 0 <= i < n ==> OnesInByte(ones, i) == OnesInByte(o, i);
    if k == 0 {
      Pow2Plus8(8 * n - o);
    } else {
      FreeValuesIsPow2(k);
    }
  }

  lemma {:induction false} BoxIsInterval(lo: seq<int>, ones: nat, a: seq<int>)
    requires |a| == |lo| && Aligned(lo, ones) && Digits(a)
    ensures InBox(lo, ones, a) <==> Number(lo) <= Number(a) < Number(lo) + Pow2(8 * |lo| - ones)
  {
    if |a| > 0 {
      var n := |a| - 1;
      ShorterBox(lo, ones, a);
      BoxIsInterval(lo[..n], ShorterOnes(|lo|, ones), a[..n]);
    }
  }

  /** The top corner of the box has the largest number in it. */
  lemma {:induction false} BoxTop(lo: seq<int>, ones: nat, hi: seq<int>)
    requires |hi| == |lo| && Aligned(lo, ones)
    requires forall i :: 0 <= i < |lo| ==> hi[i] == lo[i] + FreeValues(OnesInByte(ones, i)) - 1
    ensures Number(hi) == Number(lo) + Pow2(8 * |lo| - ones) - 1
  {
    if |lo| > 0 {
      var n, o := |lo| - 1, ShorterOnes(|lo|, ones);
      ShorterBox(lo, ones, hi);
      assert forall i :: 0 <= i < n ==> OnesInByte(ones, i) == OnesInByte(o, i);
      BoxTop(lo[..n], o, hi[..n]);
    }
  }

  lemma PrefixDigits(p: Prefix)
    requires p.Canonical()
    ensures Aligned(DigitsOf(p.ip), p.ones)
    ensures forall i :: 0 <= i < |p.ip| ==>
      DigitsOf(BroadcastOf(p))[i] == DigitsOf(p.ip)[i] + FreeValues(OnesInByte(p.ones, i)) - 1
  {
    forall i | 0 <= i < |p.ip|
      ensures DigitsOf(BroadcastOf(p))[i] == DigitsOf(p.ip)[i] + FreeValues(OnesInByte(p.ones, i)) - 1
      ensures DigitsOf(p.ip)[i] + FreeValues(OnesInByte(p.ones, i)) <= 256
    {
      assert MaskedBy(p.ip, Mask(|p.ip|, p.ones))[i] == p.ip[i];
      MaskByteFill(p.ip[i], OnesInByte(p.ones, i));
    }
  }

  lemma MatchesDigit(p: Prefix, a: Bytes, i: nat)
    requires p.Canonical() && |a| == |p.ip| && i < |a|
    ensures MaskedBy(a, Mask(|a|, p.ones))[i] == p.ip[i] <==>
            p.ip[i] as int <= a[i] as int < p.ip[i] as int + FreeValues(OnesInByte(p.ones, i))
  {
    assert MaskedBy(p.ip, Mask(|p.ip|, p.ones))[i] == p.ip[i];
    MaskByteInterval(p.ip[i], a[i], OnesInByte(p.ones, i));
  }

  lemma ContainsIsBox(p: Prefix, a: Bytes)
    requires p.Canonical() && |a| == |p.ip|
    ensures p.Contains(a) <==> InBox(DigitsOf(p.ip), p.ones, DigitsOf(a))
  {
    var r, lo, d := MaskedBy(a, Mask(|a|, p.ones)), DigitsOf(p.ip), DigitsOf(a);
    assert p.Contains(a) <==> r == p.ip;
    if p.Contains(a) {
      forall i | 0 <= i < |a| ensures lo[i] <= d[i] < lo[i] + FreeValues(OnesInByte(p.ones, i)) {
        MatchesDigit(p, a, i);
      }
    }
    if InBox(lo, p.ones, d) {
      forall i | 0 <= i < |a| ensures r[i] == p.ip[i] {
        MatchesDigit(p, a, i);
      }
      assert r == p.ip;
    }
  }

  /** Matching the mask bit by bit is lying in an interval of numbers. */
  lemma ContainsIsInterval(p: Prefix, a: Bytes)
    requires p.Canonical() && |a| == |p.ip|
    ensures p.Contains(a) <==> Value(p.ip) <= Value(a) < Value(p.ip) + Pow2(p.HostBits())
  {
    PrefixDigits(p);
    ContainsIsBox(p, a);
    BoxIsInterval(DigitsOf(p.ip), p.ones, DigitsOf(a));
  }

  lemma BroadcastValue(p: Prefix)
    requires p.Canonical()
    ensures Value(BroadcastOf(p)) == Value(p.ip) + Pow2(p.HostBits()) - 1
    ensures p.Contains(BroadcastOf(p)) && p.Contains(p.ip)
    ensures Value(p.ip) + Pow2(p.HostBits()) <= Pow256(|p.ip|)
  {
    PrefixDigits(p);
    BoxTop(DigitsOf(p.ip), p.ones, DigitsOf(BroadcastOf(p)));
    ContainsIsInterval(p, BroadcastOf(p));
    ValueBound(BroadcastOf(p));
  }

  lemma EndOfValue(p: Prefix)
    requires p.Canonical()
    ensures Value(EndOf(p)) == (Value(p.ip) + Pow2(p.HostBits())) % Pow256(|p.ip|)
    ensures Value(EndOf(p)) == 0 <==> Value(p.ip) + Pow2(p.HostBits()) == Pow256(|p.ip|)
    ensures Value(EndOf(p)) != 0 ==> Value(EndOf(p)) == Value(p.ip) + Pow2(p.HostBits())
  {
    BroadcastValue(p);
    NextOfValue(BroadcastOf(p));
    ValueBound(p.ip);
    ModOfAtMost(Value(p.ip) + Pow2(p.HostBits()), Pow256(|p.ip|));
  }

  lemma ModOfAtMost(v: nat, m: nat)
    requires 0 < m && v <= m
    ensures v % m == if v == m then 0 else v
  {
  }

  /** Unless it wraps to zero, the end address closes exactly the interval of addresses matching the mask. */
  lemma EndOfCloses(p: Prefix, a: Bytes)
    requires p.Canonical() && |a| == |p.ip|
    ensures Value(EndOf(p)) != 0 ==> (p.Contains(a) <==> Value(p.ip) <= Value(a) < Value(EndOf(p)))
    ensures Value(EndOf(p)) == 0 ==> (p.Contains(a) <==> Value(p.ip) <= Value(a))
  {
    EndOfValue(p);
    ContainsIsInterval(p, a);
    ValueBound(a);
  }
}
