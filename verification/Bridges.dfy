/** The interfaces linked to a bridge (pkg/kernel/bridge.go), deleted from their slice while it is ranged over. */
module Bridges {
  import opened Addresses
  import opened GoSlices

  datatype InterfaceType = NSC | NSE

  /** An interface; Equals compares its prefix lists without regard to order. */
  datatype Iface = Iface(index: int, kind: InterfaceType, name: string, localIPs: multiset<string>,
                         neighborIPs: multiset<string>, gateways: multiset<string>)

  /** No interface is listed twice. */
  ghost predicate Distinct(s: seq<Iface>)
  {
    forall i, j :: 0 <= i < j < |s| ==> s[i] != s[j]
  }

  /** At most one interface per index. */
  ghost predicate UniqueIndexes(s: seq<Iface>)
  {
    forall i, j :: 0 <= i < j < |s| ==> s[i].index != s[j].index
  }

  function Without(s: seq<Iface>, x: Iface): (r: seq<Iface>)
    ensures forall y :: y in r <==> y in s && y != x
  {
    if |s| == 0 then [] else Without(s[..|s| - 1], x) + (if s[|s| - 1] == x then [] else [s[|s| - 1]])
  }

  lemma {:induction false} WithoutAt(s: seq<Iface>, k: nat)
    requires Distinct(s) && k < |s|
    ensures Without(s, s[k]) == s[..k] + s[k + 1..]
  {
    var n := |s| - 1;
    if k < n {
      WithoutAt(s[..n], k);
      assert s[..k] + s[k + 1..] == (s[..n][..k] + s[..n][k + 1..]) + [s[n]];
    } else {
      WithoutAbsent(s[..n], s[k]);
      assert s[..k] + s[k + 1..] == s[..n];
    }
  }

  lemma {:induction false} WithoutAbsent(s: seq<Iface>, x: Iface)
    requires x !in s
    ensures Without(s, x) == s
  {
    if |s| > 0 {
      var n := |s| - 1;
      WithoutAbsent(s[..n], x);
      assert s[n] in s && s[n] != x;
      assert s == s[..n] + [s[n]];
      assert Without(s, x) == Without(s[..n], x) + [s[n]];
    }
  }

  lemma WithoutKeeps(s: seq<Iface>, x: Iface)
    requires Distinct(s)
    ensures Distinct(Without(s, x)) && (UniqueIndexes(s) ==> UniqueIndexes(Without(s, x)))
  {
    if x in s {
      var k :| 0 <= k < |s| && s[k] == x;
      WithoutAt(s, k);
      CutKeeps(s, k, s[..k] + s[k + 1..]);
    } else {
      WithoutAbsent(s, x);
    }
  }

  lemma CutKeeps(s: seq<Iface>, k: nat, r: seq<Iface>)
    requires Distinct(s) && k < |s| && r == s[..k] + s[k + 1..]
    ensures Distinct(r) && (UniqueIndexes(s) ==> UniqueIndexes(r))
  {
    assert forall i :: 0 <= i < |r| ==> r[i] == s[if i < k then i else i + 1];
  }

  /** The first interface with that index; none for a negative one. */
  function FindByIndex(s: seq<Iface>, index: int): (res: Option<Iface>)
    ensures res.Some? ==> index >= 0 && res.value in s && res.value.index == index
    ensures res.None? && index >= 0 ==> forall y :: y in s ==> y.index != index
  {
    if index < 0 || |s| == 0 then None
    else if s[0].index == index then Some(s[0])
    else FindByIndex(s[1..], index)
  }

  /** The list after linking: an interface found under the index makes way for the new one if it is of its type. */
  function AfterLink(s: seq<Iface>, x: Iface): seq<Iface>
  {
    var y := FindByIndex(s, x.index);
    if x in s then s
    else if y.Some? && y.value.kind == x.kind then Without(s, y.value) + [x]
    else s + [x]
  }

  /** Linking keeps interfaces distinct, whatever their indexes and types. */
  lemma LinkKeepsDistinct(s: seq<Iface>, x: Iface)
    requires Distinct(s)
    ensures Distinct(AfterLink(s, x))
  {
    var y := FindByIndex(s, x.index);
    if y.Some? {
      WithoutKeeps(s, y.value);
    }
  }

  /** `y` is the first interface with that index. */
  ghost predicate IsFirst(s: seq<Iface>, index: int, y: Iface)
  {
    exists i :: 0 <= i < |s| && s[i] == y && y.index == index && forall j :: 0 <= j < i ==> s[j].index != index
  }

  lemma {:induction false} FindsFirst(s: seq<Iface>, index: int, y: Iface)
    ensures FindByIndex(s, index) == Some(y) <==> index >= 0 && IsFirst(s, index, y)
  {
    if index >= 0 && |s| > 0 {
      FindsFirst(s[1..], index, y);
      if s[0].index == index {
        assert s[0] == y ==> IsFirst(s, index, y);
      } else {
        FirstOfRest(s, index, y);
      }
    }
  }

  lemma FirstOfRest(s: seq<Iface>, index: int, y: Iface)
    requires |s| > 0 && s[0].index != index
    ensures IsFirst(s, index, y) <==> IsFirst(s[1..], index, y)
  {
    var rest := s[1..];
    if IsFirst(s, index, y) {
      var i :| 0 <= i < |s| && s[i] == y && y.index == index && forall j :: 0 <= j < i ==> s[j].index != index;
      assert rest[i - 1] == y && forall j :: 0 <= j < i - 1 ==> rest[j] == s[j + 1];
    }
    if IsFirst(rest, index, y) {
      var i :| 0 <= i < |rest| && rest[i] == y && y.index == index && forall j :: 0 <= j < i ==> rest[j].index != index;
      assert s[i + 1] == y && forall j :: 0 < j < i + 1 ==> s[j] == rest[j - 1];
    }
  }

  /** A linked interface is listed. Of the others exactly those stay that are not the first with its index while being
      of its type, and nothing else comes. */
  lemma LinkedIsListed(s: seq<Iface>, x: Iface, y: Iface)
    ensures x in AfterLink(s, x)
    ensures y != x ==>
      (y in AfterLink(s, x) <==>
       y in s && (x in s || x.index < 0 || !IsFirst(s, x.index, y) || y.kind != x.kind))
  {
    FindsFirst(s, x.index, y);
  }

  lemma OnlyOne(s: seq<Iface>, y: Iface, z: Iface)
    requires UniqueIndexes(s) && y in s && z in s && y.index == z.index
    ensures y == z
  {
  }

  lemma AppendUnique(s: seq<Iface>, x: Iface)
    requires UniqueIndexes(s)
    ensures UniqueIndexes(s + [x]) <==> forall y :: y in s ==> y.index != x.index
  {
    if UniqueIndexes(s + [x]) {
      forall y | y in s ensures y.index != x.index {
        var i :| 0 <= i < |s| && s[i] == y;
        assert (s + [x])[i].index != (s + [x])[|s|].index;
      }
    }
  }

  /** Linking keeps indexes unique if and only if whatever else has the index has the type too, and the index is not
      negative. */
  lemma LinkKeepsUnique(s: seq<Iface>, x: Iface)
    requires UniqueIndexes(s)
    ensures UniqueIndexes(AfterLink(s, x)) <==>
            forall y :: y in s && y != x && y.index == x.index ==> x.index >= 0 && y.kind == x.kind
  {
    forall y, z | y in s && z in s && y.index == z.index ensures y == z {
      OnlyOne(s, y, z);
    }
    AppendUnique(s, x);
    var y := FindByIndex(s, x.index);
    if y.Some? {
      WithoutKeeps(s, y.value);
      AppendUnique(Without(s, y.value), x);
    }
  }

  // ---------- every run ----------

  datatype Op = Link(x: Iface) | UnLink(x: Iface)

  function Run(ops: seq<Op>): seq<Iface>
  {
    if |ops| == 0 then []
    else
      var s, op := Run(ops[..|ops| - 1]), ops[|ops| - 1];
      if op.Link? then AfterLink(s, op.x) else Without(s, op.x)
  }

  /** In every run no interface is listed twice. */
  lemma {:induction false} RunDistinct(ops: seq<Op>)
    ensures Distinct(Run(ops))
  {
    if |ops| > 0 {
      var n := |ops| - 1;
      RunDistinct(ops[..n]);
      LinkKeepsDistinct(Run(ops[..n]), ops[n].x);
      WithoutKeeps(Run(ops[..n]), ops[n].x);
    }
  }

  /** Indexes are not negative and an index keeps its type. */
  ghost predicate Typed(ops: seq<Op>, kindOf: int -> InterfaceType)
  {
    forall i :: 0 <= i < |ops| ==> ops[i].x.index >= 0 && ops[i].x.kind == kindOf(ops[i].x.index)
  }

  ghost predicate AllTyped(s: seq<Iface>, kindOf: int -> InterfaceType)
  {
    forall y :: y in s ==> y.index >= 0 && y.kind == kindOf(y.index)
  }

  lemma LinkKeepsTyped(s: seq<Iface>, x: Iface, kindOf: int -> InterfaceType)
    requires UniqueIndexes(s) && AllTyped(s, kindOf) && x.index >= 0 && x.kind == kindOf(x.index)
    ensures UniqueIndexes(AfterLink(s, x)) && AllTyped(AfterLink(s, x), kindOf)
  {
    LinkKeepsUnique(s, x);
  }

  lemma {:induction false} RunUnique(ops: seq<Op>, kindOf: int -> InterfaceType)
    requires Typed(ops, kindOf)
    ensures UniqueIndexes(Run(ops)) && AllTyped(Run(ops), kindOf)
  {
    if |ops| > 0 {
      var n := |ops| - 1;
      var s, op := Run(ops[..n]), ops[n];
      RunUnique(ops[..n], kindOf);
      if op.Link? {
        LinkKeepsTyped(s, op.x, kindOf);
        assert Run(ops) == AfterLink(s, op.x);
      } else {
        WithoutKeeps(s, op.x);
        assert Run(ops) == Without(s, op.x);
      }
    }
  }

  /** What a reader of the old header meets after the deletion is not the deleted interface. */
  lemma ReadAfterDelete(s: seq<Iface>, at: nat, j: nat)
    requires Distinct(s) && at < j < |s|
    ensures j < |s| - 1 ==> (s[..at] + s[at + 1..])[j] != s[at]
    ensures s[|s| - 1] != s[at]
  {
    assert j < |s| - 1 ==> (s[..at] + s[at + 1..])[j] == s[j + 1];
  }

  class Bridge {
    var linked: Slice<Iface>

    /** No interface is listed twice: LinkInterface looks for it first. */
    ghost predicate Valid()
      reads this, linked.buf
    {
      linked.Valid() && Distinct(linked.View())
    }

    ghost function Interfaces(): seq<Iface>
      requires Valid()
      reads this, linked.buf
    {
      linked.View()
    }

    constructor ()
      ensures Valid() && Interfaces() == [] && fresh(linked.buf)
    {
      var buf := new Iface[0];
      linked := Slice(buf, 0);
    }

    method RemoveFromLinkedInterfaces(x: Iface)
      requires Valid()
      modifies this, linked.buf
      ensures Valid() && linked.buf == old(linked.buf) && Interfaces() == Without(old(Interfaces()), x)
    {
      ghost var s := Interfaces();
      ghost var at := DeleteWhileRanging(x);
      if at < |s| {
        WithoutAt(s, at);
      } else {
        WithoutAbsent(s, x);
      }
      WithoutKeeps(s, x);
    }

    /** The loop reads the buffer through the header of the slice on entry; no slicing goes out of bounds. */
    method DeleteWhileRanging(x: Iface) returns (ghost at: nat)
      requires Valid()
      modifies this, linked.buf
      ensures linked.Valid() && linked.buf == old(linked.buf)
      ensures var s := old(Interfaces());
              if at < |s| then s[at] == x && linked.View() == s[..at] + s[at + 1..] else x !in s && linked.View() == s
    {
      var ranged := linked;
      var n := ranged.len;
      ghost var s := Interfaces();
      at := n;
      for j := 0 to n
        invariant linked.Valid() && linked.buf == ranged.buf && at <= n
        invariant at == n ==> linked == ranged && linked.View() == s && x !in s[..j]
        invariant at < n ==> at < j && s[at] == x && linked.len == n - 1
        invariant at < n ==> linked.View() == s[..at] + s[at + 1..] && ranged.buf[n - 1] == s[n - 1]
      {
        if at < n {
          ReadAfterDelete(s, at, j);
          assert j < n - 1 ==> ranged.buf[j] == linked.View()[j];
        }
        if ranged.buf[j] == x {
          at := j;
          ghost var tail := ranged.buf[n - 1..];
          linked := AppendTail(linked, j, j + 1);
          assert ranged.buf[n - 1] == tail[0];
        }
        assert s[..j + 1] == s[..j] + [s[j]];
      }
      assert s[..n] == s;
    }

    method InterfaceIsLinked(x: Iface) returns (found: bool)
      requires Valid()
      ensures found <==> x in Interfaces()
    {
      for i := 0 to linked.len
        invariant x !in linked.buf[..i]
      {
        assert linked.buf[..i + 1] == linked.buf[..i] + [linked.buf[i]];
        if linked.buf[i] == x {
          return true;
        }
      }
      found := false;
    }

    method FindLinkedInterfaceByIndex(index: int) returns (res: Option<Iface>)
      requires Valid()
      ensures res == FindByIndex(Interfaces(), index)
    {
      if index < 0 {
        return None;
      }
      ghost var s := Interfaces();
      for i := 0 to linked.len
        invariant FindByIndex(s, index) == FindByIndex(s[i..], index)
      {
        assert s[i..][1..] == s[i + 1..];
        if linked.buf[i].index == index {
          return Some(linked.buf[i]);
        }
      }
      res := None;
    }

    /** The list is updated first; `up` says whether the kernel calls after that succeed. */
    method LinkInterface(x: Iface, up: bool) returns (ok: bool)
      requires Valid()
      modifies this, linked.buf
      ensures Valid() && (linked.buf == old(linked.buf) || fresh(linked.buf))
      ensures Interfaces() == AfterLink(old(Interfaces()), x) && ok == (up || x in old(Interfaces()))
    {
      ghost var before := Interfaces();
      var isLinked := InterfaceIsLinked(x);
      if isLinked {
        return true;
      }
      var other := FindLinkedInterfaceByIndex(x.index);
      if other.Some? && other.value.kind == x.kind {
        RemoveFromLinkedInterfaces(other.value);
      }
      LinkKeepsDistinct(before, x);
      linked := AppendOne(linked, x);
      ok := up;
    }

    method UnLinkInterface(x: Iface, up: bool) returns (ok: bool)
      requires Valid()
      modifies this, linked.buf
      ensures Valid() && linked.buf == old(linked.buf)
      ensures Interfaces() == Without(old(Interfaces()), x) && ok == (up || x !in old(Interfaces()))
    {
      ghost var before := Interfaces();
      var isLinked := InterfaceIsLinked(x);
      if !isLinked {
        WithoutAbsent(before, x);
        return true;
      }
      RemoveFromLinkedInterfaces(x);
      ok := up;
    }
  }
}
