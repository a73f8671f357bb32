/** Admission of a flow's port ranges (api/v1/flow_webhook.go, api/v1/types.go). */
module FlowPorts {
  import opened Addresses
  import opened GoSlices
  import opened Texts

  datatype Ports = Ports(start: nat, end: nat)

  predicate Overlap(a: Ports, b: Ports)
  {
    a.start <= b.end && b.start <= a.end
  }

  predicate Above(a: Ports, b: Ports)
  {
    b.end < a.start <= a.end
  }

  // ---------- the working list ----------

  /** Ordered from low to high; a range may be listed several times in a row. */
  ghost predicate Ordered(s: seq<Ports>)
  {
    && (forall i :: 0 <= i < |s| ==> s[i].start <= s[i].end)
    && (forall i, j :: 0 <= i < j < |s| ==> s[i] == s[j] || s[i].end < s[j].start)
  }

  /** How many leading ranges end before `c` starts. */
  function Below(s: seq<Ports>, c: Ports): (k: nat)
    ensures k <= |s|
    ensures forall i :: 0 <= i < k ==> s[i].end < c.start
    ensures k < |s| ==> c.start <= s[k].end
  {
    if |s| == 0 || c.start <= s[0].end then 0 else 1 + Below(s[1..], c)
  }

  function Copies(c: Ports, n: nat): (r: seq<Ports>)
    ensures |r| == n && forall i :: 0 <= i < n ==> r[i] == c
  {
    seq(n, _ => c)
  }

  /** The working list after `c`: one copy of `c` at the end, or one copy for every range it goes before. */
  function Inserted(s: seq<Ports>, c: Ports): (r: seq<Ports>)
  {
    var k := Below(s, c);
    if k == |s| then s + [c] else s[..k] + Copies(c, |s| - k) + s[k..]
  }

  function Working(ranges: seq<Ports>): (r: seq<Ports>)
  {
    if |ranges| == 0 then [] else Inserted(Working(ranges[..|ranges| - 1]), ranges[|ranges| - 1])
  }

  method InsertPortList(pl: Slice<Ports>, i: nat, p: Ports) returns (r: Slice<Ports>)
    requires pl.Valid() && i <= pl.len
    modifies pl.buf
    ensures r.Valid() && r.View() == old(pl.View())[..i] + [p] + old(pl.View())[i..]
    ensures r.buf == pl.buf || fresh(r.buf)
    ensures r.buf != pl.buf && i < pl.len ==> pl.buf[..] == old(pl.buf[..])
  {
    if i == pl.len {
      r := AppendOne(pl, p);
    } else {
      ghost var v := pl.View();
      r := AppendTail(pl, i + 1, i);
      r.buf[i] := p;
      assert r.View() == (v[..i + 1] + v[i..])[i := p];
    }
  }

  /** Ordered list `s` with `m` copies of `c` before its range `k`. */
  ghost function Shifted(s: seq<Ports>, k: nat, c: Ports, m: nat): seq<Ports>
    requires k <= |s|
  {
    s[..k] + Copies(c, m) + s[k..]
  }

  /** One more copy at position `j`; whatever a reader of the shifted list meets after `j` lies above `c`. */
  lemma InsertStep(s: seq<Ports>, k: nat, c: Ports, j: nat)
    requires Ordered(s) && k <= j < |s| && c.end < s[k].start
    ensures var v := Shifted(s, k, c, j - k); |v| > j && v[..j] + [c] + v[j..] == Shifted(s, k, c, j + 1 - k)
    ensures var w := Shifted(s, k, c, j + 1 - k); forall x :: j + 1 <= x < |s| ==> Above(w[x], c)
  {
    var v, w := Shifted(s, k, c, j - k), Shifted(s, k, c, j + 1 - k);
    assert v[..j] == s[..k] + Copies(c, j - k) && v[j..] == s[k..];
    forall x | j + 1 <= x < |s| ensures Above(w[x], c) {
      assert w[x] == s[k + (x - (j + 1))];
    }
  }

  /** The loop ranges over the slice as it was on entry, while insertions may shift that same buffer. */
  method CheckPortsOverlapping(allPorts: Slice<Ports>, c: Ports) returns (r: Slice<Ports>, ok: bool)
    requires allPorts.Valid() && Ordered(allPorts.View()) && c.start <= c.end
    modifies allPorts.buf
    ensures ok <==> forall x :: x in old(allPorts.View()) ==> !Overlap(x, c)
    ensures r.Valid() && (r.buf == allPorts.buf || fresh(r.buf))
    ensures ok ==> r.View() == Inserted(old(allPorts.View()), c)
  {
    r := allPorts;
    if allPorts.len == 0 {
      r := InsertPortList(r, 0, c);
      return r, true;
    }
    ghost var s := allPorts.View();
    ghost var k := Below(s, c);
    var n := allPorts.len;
    for j := 0 to n
      invariant r.Valid() && (r.buf == allPorts.buf || fresh(r.buf))
      invariant j <= k && j < n ==> r == allPorts && r.View() == s
      invariant j == n == k ==> r.View() == s + [c]
      invariant k < j ==> c.end < s[k].start && r.View() == Shifted(s, k, c, j - k)
      invariant k < j ==> forall x :: j <= x < n ==> Above(allPorts.buf[x], c)
    {
      var validp := allPorts.buf[j];
      assert j <= k ==> validp == s[j];
      if c.start > validp.end {
        assert j < k;
        if j == r.len - 1 {
          r := InsertPortList(r, r.len, c);
        }
      } else if c.end < validp.start {
        r := Shift(r, allPorts, s, k, c, j);
      } else {
        assert j == k && s[k] in s && Overlap(s[k], c);
        return r, false;
      }
    }
    NoOverlap(s, c);
    return r, true;
  }

  method Shift(cur: Slice<Ports>, ranged: Slice<Ports>, ghost s: seq<Ports>, ghost k: nat, c: Ports, j: nat)
    returns (r: Slice<Ports>)
    requires cur.Valid() && ranged.Valid() && Ordered(s) && |s| == ranged.len
    requires k <= j < |s| && c.end < s[k].start && cur.View() == Shifted(s, k, c, j - k)
    requires cur.buf != ranged.buf ==> forall x :: j <= x < |s| ==> Above(ranged.buf[x], c)
    requires cur.buf == ranged.buf || k < j
    modifies cur.buf
    ensures r.Valid() && (r.buf == cur.buf || fresh(r.buf))
    ensures r.View() == Shifted(s, k, c, j + 1 - k)
    ensures forall x :: j + 1 <= x < |s| ==> Above(ranged.buf[x], c)
  {
    InsertStep(s, k, c, j);
    ghost var was := cur.View();
    r := InsertPortList(cur, j, c);
    ghost var v := r.View();
    if r.buf == ranged.buf {
      assert forall x :: 0 <= x < |s| ==> ranged.buf[x] == v[x];
    } else if cur.buf == ranged.buf {
      forall x | j + 1 <= x < |s| ensures Above(ranged.buf[x], c) {
        assert ranged.buf[x] == was[x];
        assert was[x] == s[k + (x - j)];
      }
    }
  }

  lemma NoOverlap(s: seq<Ports>, c: Ports)
    requires Ordered(s) && (Below(s, c) < |s| ==> c.end < s[Below(s, c)].start)
    ensures forall x :: x in s ==> !Overlap(x, c)
  {
  }

  // ---------- every list of ranges ----------

  ghost predicate PairwiseDisjoint(ranges: seq<Ports>)
  {
    && (forall i :: 0 <= i < |ranges| ==> ranges[i].start <= ranges[i].end)
    && (forall i, j :: 0 <= i < j < |ranges| ==> !Overlap(ranges[i], ranges[j]))
  }

  lemma InsertedOrdered(s: seq<Ports>, c: Ports)
    requires Ordered(s) && c.start <= c.end && forall x :: x in s ==> !Overlap(x, c)
    ensures Ordered(Inserted(s, c))
    ensures |Inserted(s, c)| <= if s == [] then 1 else 2 * |s|
  {
    var k, r := Below(s, c), Inserted(s, c);
    if k < |s| {
      assert s[k] in s;
      assert c.end < s[k].start;
    }
  }

  lemma InsertedMembers(s: seq<Ports>, c: Ports, x: Ports)
    ensures x in Inserted(s, c) <==> x in s || x == c
  {
    var k, r := Below(s, c), Inserted(s, c);
    if k < |s| {
      assert r[k] == c;
      assert s == s[..k] + s[k..];
    }
  }

  lemma {:induction false} WorkingMembers(ranges: seq<Ports>, x: Ports)
    ensures x in Working(ranges) <==> x in ranges
  {
    if |ranges| > 0 {
      var n := |ranges| - 1;
      WorkingMembers(ranges[..n], x);
      InsertedMembers(Working(ranges[..n]), ranges[n], x);
      assert ranges == ranges[..n] + [ranges[n]];
    }
  }

  /** The working list stays ordered, holds exactly the accepted ranges, and is at most doubled by each of them. */
  lemma {:induction false} WorkingFacts(ranges: seq<Ports>)
    requires PairwiseDisjoint(ranges)
    ensures Ordered(Working(ranges))
    ensures forall x :: x in Working(ranges) <==> x in ranges
    ensures |ranges| > 0 ==> 1 <= |Working(ranges)| <= Pow2(|ranges| - 1)
  {
    forall x ensures x in Working(ranges) <==> x in ranges {
      WorkingMembers(ranges, x);
    }
    if |ranges| > 0 {
      var n := |ranges| - 1;
      var w, c := Working(ranges[..n]), ranges[n];
      WorkingFacts(ranges[..n]);
      forall x | x in w ensures !Overlap(x, c) {
        var i :| 0 <= i < n && ranges[..n][i] == x;
        assert !Overlap(ranges[i], ranges[n]);
      }
      InsertedOrdered(w, c);
      assert Working(ranges) == Inserted(w, c);
    }
  }

  /** From the third on, every range lies below all earlier ones. */
  ghost predicate Descending(ranges: seq<Ports>)
  {
    forall i, j :: 0 <= i < j < |ranges| && 2 <= j ==> ranges[j].end < ranges[i].start
  }

  /** A list of two or more doubles exactly when the new range goes before all of it; a list of one always does. */
  lemma InsertedDoubles(s: seq<Ports>, c: Ports)
    requires Ordered(s) && s != [] && c.start <= c.end && forall x :: x in s ==> !Overlap(x, c)
    ensures |Inserted(s, c)| == 2 * |s| <==> |s| == 1 || forall x :: x in s ==> c.end < x.start
  {
    var k := Below(s, c);
    if k == 0 {
      assert s[0] in s;
    } else {
      assert s[0] in s && s[0].end < c.start;
    }
  }

  lemma WorkingDoubles(ranges: seq<Ports>)
    requires |ranges| > 1 && PairwiseDisjoint(ranges)
    ensures var n := |ranges| - 1;
            var w := Working(ranges[..n]);
            && |w| <= |Working(ranges)| <= 2 * |w|
            && (|Working(ranges)| == 2 * |w| <==> |w| == 1 || forall x :: x in ranges[..n] ==> ranges[n].end < x.start)
  {
    var n := |ranges| - 1;
    var done, w, c := ranges[..n], Working(ranges[..n]), ranges[n];
    WorkingFacts(done);
    forall x | x in w ensures !Overlap(x, c) {
      var i :| 0 <= i < n && done[i] == x;
      assert !Overlap(ranges[i], ranges[n]);
    }
    InsertedOrdered(w, c);
    InsertedDoubles(w, c);
    assert Working(ranges) == Inserted(w, c);
  }

  lemma DescendingStep(ranges: seq<Ports>, w: nat, next: nat)
    requires |ranges| > 1 && 1 <= w <= Pow2(|ranges| - 2) && w <= next <= 2 * w
    requires var n := |ranges| - 1;
             next == 2 * w <==> w == 1 || forall x :: x in ranges[..n] ==> ranges[n].end < x.start
    requires w == Pow2(|ranges| - 2) <==> Descending(ranges[..|ranges| - 1])
    ensures next == Pow2(|ranges| - 1) <==> Descending(ranges)
  {
    DescendingOneMore(ranges);
    assert |ranges| > 2 ==> Pow2(|ranges| - 2) == 2 * Pow2(|ranges| - 3);
  }

  /** The working list reaches its bound if and only if the ranges come from high to low, but for the first two. */
  lemma {:induction false} DescendingDoubles(ranges: seq<Ports>)
    requires |ranges| > 0 && PairwiseDisjoint(ranges)
    ensures |Working(ranges)| == Pow2(|ranges| - 1) <==> Descending(ranges)
  {
    if |ranges| > 1 {
      var done := ranges[..|ranges| - 1];
      DescendingDoubles(done);
      WorkingBound(done);
      WorkingDoubles(ranges);
      DescendingStep(ranges, |Working(done)|, |Working(ranges)|);
    }
  }

  lemma WorkingBound(ranges: seq<Ports>)
    requires |ranges| > 0 && PairwiseDisjoint(ranges)
    ensures 1 <= |Working(ranges)| <= Pow2(|ranges| - 1)
  {
    WorkingFacts(ranges);
  }

  lemma DescendingOneMore(ranges: seq<Ports>)
    requires |ranges| > 1
    ensures var n := |ranges| - 1;
            Descending(ranges) <==>
            Descending(ranges[..n]) && (n == 1 || forall x :: x in ranges[..n] ==> ranges[n].end < x.start)
  {
    var n := |ranges| - 1;
    if Descending(ranges) && n > 1 {
      forall x | x in ranges[..n] ensures ranges[n].end < x.start {
        var i :| 0 <= i < n && ranges[..n][i] == x;
        assert ranges[i] == x;
      }
    }
    if Descending(ranges[..n]) && (n == 1 || forall x :: x in ranges[..n] ==> ranges[n].end < x.start) {
      forall i, j | 0 <= i < j < |ranges| && 2 <= j ensures ranges[j].end < ranges[i].start {
        assert ranges[..n][i] == ranges[i] && ranges[i] in ranges[..n];
        if j < n {
          assert ranges[..n][j] == ranges[j];
        }
      }
    }
  }

  // ---------- texts ----------

  const MAX_PORT: nat := 65535

  /** `strconv.ParseUint(s, 10, 16)`. */
  function ParsePort(s: string): (r: Option<nat>)
  {
    if |s| > 0 && AllDigits(s) && DecimalValue(s) <= MAX_PORT then Some(DecimalValue(s)) else None
  }

  function NewPort(start: Option<nat>, end: Option<nat>): (r: Option<Ports>)
  {
    if start.Some? && end.Some? && start.value <= end.value then Some(Ports(start.value, end.value)) else None
  }

  function ValidPortsFormat(p: string): (r: Option<Ports>)
  {
    if '-' in p then
      var ports := SplitAtDashes(p);
      if |ports| != 2 then None else NewPort(ParsePort(ports[0]), ParsePort(ports[1]))
    else if p == "any" then NewPort(Some(0), Some(MAX_PORT))
    else NewPort(ParsePort(p), ParsePort(p))
  }

  ghost predicate Numeral(s: string, v: nat)
  {
    |s| > 0 && (forall i :: 0 <= i < |s| ==> '0' <= s[i] <= '9') && DecimalValue(s) == v
  }

  /** The text is "any", a numeral, or two numerals around one dash, for a non-empty range of ports. */
  ghost predicate Denotes(p: string, r: Ports)
  {
    && r.start <= r.end <= 65535
    && (|| (p == "any" && r == Ports(0, 65535))
        || (Numeral(p, r.start) && r.start == r.end)
        || (exists a, b :: Numeral(a, r.start) && Numeral(b, r.end) && p == a + "-" + b))
  }

  /** The format accepts exactly the texts that denote a range, and reads that range. */
  lemma FormatReadsDenotation(p: string, r: Ports)
    ensures ValidPortsFormat(p) == Some(r) <==> Denotes(p, r)
  {
    if Denotes(p, r) {
      if Numeral(p, r.start) {
        DigitsAreDashFree(p);
      } else if p != "any" {
        var a, b :| Numeral(a, r.start) && Numeral(b, r.end) && p == a + "-" + b;
        DigitsAreDashFree(a);
        DigitsAreDashFree(b);
        SplitInTwo(a, b);
        assert p[|a|] == '-';
      }
    }
    if ValidPortsFormat(p) == Some(r) && '-' in p {
      var ports := SplitAtDashes(p);
      assert Join(ports) == ports[0] + "-" + Join(ports[1..]) == p;
      assert Numeral(ports[0], r.start) && Numeral(ports[1], r.end);
    }
  }

  datatype Verdict = Accepted | BadFormat(i: nat) | Overlapping(i: nat)

  /** What the texts read as, one entry each. */
  function Formats(ports: seq<string>): (r: seq<Option<Ports>>)
    ensures |r| == |ports|
  {
    seq(|ports|, i requires 0 <= i < |ports| => ValidPortsFormat(ports[i]))
  }

  function Ranges(fs: seq<Option<Ports>>): (r: seq<Ports>)
    requires forall i :: 0 <= i < |fs| ==> fs[i].Some?
    ensures |r| == |fs|
  {
    seq(|fs|, i requires 0 <= i < |fs| => fs[i].value)
  }

  /** Every text denotes a range and no two ranges share a port. */
  ghost predicate DisjointPorts(fs: seq<Option<Ports>>)
  {
    && (forall i :: 0 <= i < |fs| ==> fs[i].Some?)
    && PairwiseDisjoint(Ranges(fs))
  }

  lemma AcceptNext(fs: seq<Option<Ports>>, i: nat)
    requires i < |fs| && DisjointPorts(fs[..i]) && fs[i].Some? && fs[i].value.start <= fs[i].value.end
    requires forall x :: x in Working(Ranges(fs[..i])) ==> !Overlap(x, fs[i].value)
    ensures DisjointPorts(fs[..i + 1])
    ensures Working(Ranges(fs[..i + 1])) == Inserted(Working(Ranges(fs[..i])), fs[i].value)
  {
    var done, next := Ranges(fs[..i]), Ranges(fs[..i + 1]);
    WorkingFacts(done);
    assert next[..i] == done && next[i] == fs[i].value;
    forall j | 0 <= j < i ensures !Overlap(next[j], next[i]) {
      assert done[j] in Working(done);
    }
  }

  lemma RejectNext(fs: seq<Option<Ports>>, i: nat, x: Ports) returns (j: nat)
    requires i < |fs| && DisjointPorts(fs[..i]) && fs[i].Some?
    requires x in Working(Ranges(fs[..i])) && Overlap(x, fs[i].value)
    ensures j < i && fs[j].Some? && Overlap(fs[j].value, fs[i].value) && !DisjointPorts(fs)
  {
    var done := Ranges(fs[..i]);
    WorkingFacts(done);
    j :| 0 <= j < i && done[j] == x;
    if forall k :: 0 <= k < |fs| ==> fs[k].Some? {
      assert Overlap(Ranges(fs)[j], Ranges(fs)[i]);
    }
  }

  method ValidatePorts(ports: seq<string>) returns (v: Verdict)
    ensures v == Accepted <==> DisjointPorts(Formats(ports))
    ensures v.BadFormat? ==> v.i < |ports| && DisjointPorts(Formats(ports)[..v.i]) && ValidPortsFormat(ports[v.i]).None?
    ensures v.Overlapping? ==>
      && v.i < |ports| && DisjointPorts(Formats(ports)[..v.i]) && Formats(ports)[v.i].Some?
      && exists j :: 0 <= j < v.i && Overlap(Formats(ports)[j].value, Formats(ports)[v.i].value)
  {
    var buf := new Ports[0];
    var portsList := Slice(buf, 0);
    ghost var fs := Formats(ports);
    for i := 0 to |ports|
      invariant fresh(portsList.buf) && portsList.Valid()
      invariant DisjointPorts(fs[..i]) && portsList.View() == Working(Ranges(fs[..i]))
    {
      var candidate := ValidPortsFormat(ports[i]);
      assert candidate == fs[i];
      if candidate.None? {
        return BadFormat(i);
      }
      WorkingFacts(Ranges(fs[..i]));
      var ok;
      portsList, ok := CheckPortsOverlapping(portsList, candidate.value);
      if !ok {
        ghost var x :| x in Working(Ranges(fs[..i])) && Overlap(x, candidate.value);
        ghost var j := RejectNext(fs, i, x);
        return Overlapping(i);
      }
      AcceptNext(fs, i);
    }
    assert fs[..|ports|] == fs;
    v := Accepted;
  }
}
