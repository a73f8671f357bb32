/** The default multipath routes of a routing table, one per address family (pkg/kernel/route.go). */
module NexthopRoutes {
  import opened Addresses
  import opened GoSlices

  datatype Family = V4 | V6

  /** A nexthop as parsed; two are equal when address and mask size are. */
  datatype Addr = Addr(family: Family, ip: Bytes, ones: nat)

  /** The recorded nexthops, and the gateways of the installed route, per family. */
  datatype State = State(nexthops: map<Family, seq<Addr>>, routes: map<Family, seq<Bytes>>)

  function Hops(st: State, f: Family): seq<Addr> { if f in st.nexthops then st.nexthops[f] else [] }

  function Gateways(list: seq<Addr>): (r: seq<Bytes>)
    ensures |r| == |list|
  {
    seq(|list|, i requires 0 <= i < |list| => list[i].ip)
  }

  ghost predicate NoDuplicates(list: seq<Addr>)
  {
    forall i, j :: 0 <= i < j < |list| ==> list[i] != list[j]
  }

  /** removeAddrFromList: the first match gives its place to the last nexthop. */
  function Removed(a: Addr, list: seq<Addr>): (r: seq<Addr>)
  {
    RemovedFrom(a, list, 0)
  }

  function RemovedFrom(a: Addr, list: seq<Addr>, i: nat): (r: seq<Addr>)
    requires i <= |list|
    decreases |list| - i
  {
    if i == |list| then list
    else if list[i] == a then list[i := list[|list| - 1]][..|list| - 1]
    else RemovedFrom(a, list, i + 1)
  }

  lemma {:induction false} RemovedFromFacts(a: Addr, list: seq<Addr>, i: nat)
    requires i <= |list| && NoDuplicates(list) && a !in list[..i]
    ensures NoDuplicates(RemovedFrom(a, list, i))
    ensures forall x :: x in RemovedFrom(a, list, i) <==> x in list && x != a
    ensures |RemovedFrom(a, list, i)| == if a in list then |list| - 1 else |list|
    decreases |list| - i
  {
    if i < |list| {
      if list[i] == a {
        SwapRemove(list, i);
      } else {
        assert list[..i + 1] == list[..i] + [list[i]];
        RemovedFromFacts(a, list, i + 1);
      }
    } else {
      assert list[..i] == list;
    }
  }

  lemma SwapRemove(list: seq<Addr>, i: nat)
    requires NoDuplicates(list) && i < |list|
    ensures var r := list[i := list[|list| - 1]][..|list| - 1];
            NoDuplicates(r) && forall x :: x in r <==> x in list && x != list[i]
  {
    var n := |list| - 1;
    var r := list[i := list[n]][..n];
    forall x | x in list && x != list[i] ensures x in r {
      var j :| 0 <= j < |list| && list[j] == x;
      assert j < n ==> r[j] == x;
      assert j == n ==> r[i] == x;
    }
    forall x | x in r ensures x in list && x != list[i] {
      var j :| 0 <= j < n && r[j] == x;
    }
  }

  /** Swapping the last nexthop out again gives the list before it was appended. */
  lemma {:induction false} RemovedUndoesAppend(a: Addr, list: seq<Addr>, i: nat)
    requires a !in list && i <= |list|
    ensures RemovedFrom(a, list + [a], i) == list
    decreases |list| - i
  {
    if i < |list| {
      RemovedUndoesAppend(a, list, i + 1);
    }
  }

  // ---------- the operations on values ----------

  datatype Op = Add(a: Addr, up: bool) | Remove(a: Addr, up: bool)

  /** `up` says whether the kernel accepts the change of the route. */
  function After(st: State, op: Op): State
  {
    var f, list := op.a.family, Hops(st, op.a.family);
    match op
    case Add(a, up) =>
      if a in list || !up then st
      else State(st.nexthops[f := list + [a]], st.routes[f := Gateways(list + [a])])
    case Remove(a, up) =>
      var r := Removed(a, list);
      State(st.nexthops[f := r],
            if |r| == |list| || !up then st.routes
            else if |r| > 0 then st.routes[f := Gateways(r)]
            else st.routes - {f})
  }

  /** Per family: no nexthop twice, and a route is installed exactly for a non-empty list, with its gateways. */
  ghost predicate Consistent(st: State)
  {
    forall f :: ConsistentFor(st, f)
  }

  ghost predicate ConsistentFor(st: State, f: Family)
  {
    && NoDuplicates(Hops(st, f))
    && (f in st.routes <==> Hops(st, f) != [])
    && (f in st.routes ==> forall ip :: ip in st.routes[f] <==> exists a :: a in Hops(st, f) && a.ip == ip)
  }

  lemma GatewaysOf(list: seq<Addr>, ip: Bytes)
    ensures ip in Gateways(list) <==> exists a :: a in list && a.ip == ip
  {
    if ip in Gateways(list) {
      var i :| 0 <= i < |list| && Gateways(list)[i] == ip;
      assert list[i] in list;
    }
    if a :| a in list && a.ip == ip {
      var i :| 0 <= i < |list| && list[i] == a;
      assert Gateways(list)[i] == ip;
    }
  }

  /** An addition keeps lists and routes consistent, whether the kernel accepts it or not. */
  lemma AddKeepsConsistent(st: State, a: Addr, up: bool)
    requires Consistent(st)
    ensures Consistent(After(st, Add(a, up)))
  {
    var r, list := After(st, Add(a, up)), Hops(st, a.family);
    assert ConsistentFor(st, a.family);
    forall ip ensures ip in Gateways(list + [a]) <==> exists x :: x in list + [a] && x.ip == ip {
      GatewaysOf(list + [a], ip);
    }
    forall f ensures ConsistentFor(r, f) {
      assert ConsistentFor(st, f);
    }
  }

  lemma RemoveKeepsConsistent(st: State, a: Addr)
    requires Consistent(st)
    ensures Consistent(After(st, Remove(a, true)))
    ensures forall x :: x in Hops(After(st, Remove(a, true)), a.family) <==> x in Hops(st, a.family) && x != a
  {
    var r, list := After(st, Remove(a, true)), Hops(st, a.family);
    assert ConsistentFor(st, a.family);
    RemovedFromFacts(a, list, 0);
    forall ip ensures ip in Gateways(Removed(a, list)) <==> exists x :: x in Removed(a, list) && x.ip == ip {
      GatewaysOf(Removed(a, list), ip);
    }
    forall f ensures ConsistentFor(r, f) {
      assert ConsistentFor(st, f);
    }
  }

  const EMPTY := State(map[V4 := [], V6 := []], map[])

  function Run(ops: seq<Op>): State
  {
    if |ops| == 0 then EMPTY else After(Run(ops[..|ops| - 1]), ops[|ops| - 1])
  }

  /** In every run whose removals reach the kernel, the routes are those of the lists; additions may fail. */
  lemma {:induction false} RunConsistent(ops: seq<Op>)
    requires forall i :: 0 <= i < |ops| && ops[i].Remove? ==> ops[i].up
    ensures Consistent(Run(ops))
  {
    if |ops| > 0 {
      var n := |ops| - 1;
      RunConsistent(ops[..n]);
      if ops[n].Add? {
        AddKeepsConsistent(Run(ops[..n]), ops[n].a, ops[n].up);
      } else {
        RemoveKeepsConsistent(Run(ops[..n]), ops[n].a);
      }
    }
  }

  /** An accepted addition puts the nexthop into its family's list and nothing else; the other family is untouched. */
  lemma AddAdds(st: State, a: Addr, up: bool)
    ensures var r := After(st, Add(a, up));
            && (forall x :: x in Hops(r, a.family) <==> x in Hops(st, a.family) || (up && x == a))
            && (forall f :: f != a.family ==> Hops(r, f) == Hops(st, f) && (f in r.routes <==> f in st.routes)
                                              && (f in r.routes ==> r.routes[f] == st.routes[f]))
  {
  }

  lemma {:induction false} RunNoDuplicates(ops: seq<Op>, f: Family)
    ensures NoDuplicates(Hops(Run(ops), f))
  {
    if |ops| > 0 {
      var n := |ops| - 1;
      RunNoDuplicates(ops[..n], f);
      if ops[n].Remove? {
        RemovedFromFacts(ops[n].a, Hops(Run(ops[..n]), f), 0);
      }
    }
  }

  predicate Removes(op: Op, x: Addr) { op.Remove? && op.a == x }

  /** The nexthop was added with success, and not removed since. */
  ghost predicate AddedSince(ops: seq<Op>, x: Addr)
  {
    exists i :: 0 <= i < |ops| && ops[i] == Add(x, true) && forall j :: i < j < |ops| ==> !Removes(ops[j], x)
  }

  lemma AddedSinceOneMore(ops: seq<Op>, op: Op, x: Addr)
    ensures AddedSince(ops + [op], x) <==> op == Add(x, true) || (AddedSince(ops, x) && !Removes(op, x))
  {
    var r, n := ops + [op], |ops|;
    if op == Add(x, true) {
      assert r[n] == Add(x, true);
    } else if AddedSince(ops, x) && !Removes(op, x) {
      var i :| 0 <= i < n && ops[i] == Add(x, true) && forall j :: i < j < n ==> !Removes(ops[j], x);
      assert r[i] == Add(x, true);
    }
    if AddedSince(r, x) {
      var i :| 0 <= i < |r| && r[i] == Add(x, true) && forall j :: i < j < |r| ==> !Removes(r[j], x);
      if i < n {
        assert ops[i] == Add(x, true) && r[n] == op;
        assert forall j :: i < j < n ==> ops[j] == r[j];
      }
    }
  }

  /** In every run, whatever the kernel does, a family's list holds exactly the nexthops added with success and not
      removed since. */
  lemma {:induction false} RunHolds(ops: seq<Op>, x: Addr)
    ensures x in Hops(Run(ops), x.family) <==> AddedSince(ops, x)
  {
    if |ops| > 0 {
      var n := |ops| - 1;
      var st, op := Run(ops[..n]), ops[n];
      RunHolds(ops[..n], x);
      assert ops == ops[..n] + [op];
      AddedSinceOneMore(ops[..n], op, x);
      if op.Add? {
        AddAdds(st, op.a, op.up);
      } else {
        RunNoDuplicates(ops[..n], op.a.family);
        RemovedFromFacts(op.a, Hops(st, op.a.family), 0);
      }
    }
  }

  /** A removal that does not reach the kernel is not repeated: removing the nexthop again changes nothing, and its
      gateway stays in the route unless another nexthop has it too. */
  lemma FailedRemovalSticks(st: State, a: Addr, up: bool)
    requires Consistent(st) && a in Hops(st, a.family)
    ensures var r := After(st, Remove(a, false));
            After(r, Remove(a, up)) == r && a !in Hops(r, a.family)
            && a.family in r.routes && a.ip in r.routes[a.family]
    ensures Consistent(After(st, Remove(a, false))) <==> exists x :: x in Hops(st, a.family) && x != a && x.ip == a.ip
  {
    var f := a.family;
    var r, list := After(st, Remove(a, false)), Hops(st, f);
    assert ConsistentFor(st, f);
    RemovedFromFacts(a, list, 0);
    var left := Hops(r, f);
    RemovedFromFacts(a, left, 0);
    NothingToRemove(a, left, 0);
    if x :| x in list && x != a && x.ip == a.ip {
      assert x in left;
      forall g ensures ConsistentFor(r, g) {
        assert ConsistentFor(st, g);
      }
    } else {
      assert a in list && a.ip in r.routes[f];
      assert forall x :: x in left ==> x.ip != a.ip;
      assert !ConsistentFor(r, f);
    }
  }

  lemma {:induction false} NothingToRemove(a: Addr, list: seq<Addr>, i: nat)
    requires a !in list && i <= |list|
    ensures RemovedFrom(a, list, i) == list
    decreases |list| - i
  {
    if i < |list| {
      NothingToRemove(a, list, i + 1);
    }
  }

  lemma {:induction false} RemovedShrinks(a: Addr, list: seq<Addr>, i: nat)
    requires i <= |list| && a !in list[..i]
    ensures |RemovedFrom(a, list, i)| == if a in list then |list| - 1 else |list|
    decreases |list| - i
  {
    if i == |list| {
      assert list[..i] == list;
    } else if list[i] != a {
      assert list[..i + 1] == list[..i] + [list[i]];
      RemovedShrinks(a, list, i + 1);
    }
  }

  // ---------- the object ----------

  /** The first match is overwritten by the last nexthop, in the list's own buffer. */
  method RemoveAddrFromList(a: Addr, list: Slice<Addr>) returns (r: Slice<Addr>)
    requires list.Valid()
    modifies list.buf
    ensures r.Valid() && r.buf == list.buf && r.View() == Removed(a, old(list.View()))
    ensures r.len == if a in old(list.View()) then list.len - 1 else list.len
  {
    ghost var s := list.View();
    RemovedShrinks(a, s, 0);
    for i := 0 to list.len
      invariant list.View() == s && Removed(a, s) == RemovedFrom(a, s, i)
    {
      if list.buf[i] == a {
        list.buf[i] := list.buf[list.len - 1];
        r := Slice(list.buf, list.len - 1);
        assert list.View() == s[i := s[list.len - 1]];
        assert r.View() == list.View()[..list.len - 1];
        return;
      }
    }
    r := list;
  }

  class NexthopRoute {
    /** The two entries of the map of nexthops. */
    var v4: Slice<Addr>
    var v6: Slice<Addr>
    var routes: map<Family, seq<Bytes>>

    constructor ()
      ensures Valid() && fresh(v4.buf) && fresh(v6.buf) && Current() == EMPTY
    {
      var buf4, buf6 := new Addr[0], new Addr[0];
      v4, v6, routes := Slice(buf4, 0), Slice(buf6, 0), map[];
    }

    /** Each family has its list in a buffer of its own. */
    ghost predicate Valid()
      reads this
    {
      v4.Valid() && v6.Valid() && v4.buf != v6.buf
    }

    function List(f: Family): Slice<Addr>
      reads this
    {
      match f
      case V4 => v4
      case V6 => v6
    }

    ghost function Current(): (st: State)
      requires Valid()
      reads this, v4.buf, v6.buf
      ensures Hops(st, V4) == v4.View() && Hops(st, V6) == v6.View()
    {
      State(map[V4 := v4.View(), V6 := v6.View()], routes)
    }

    method AddNexthop(nexthop: Option<Addr>, up: bool) returns (ok: bool)
      requires Valid()
      modifies this, v4.buf, v6.buf
      ensures Valid() && (v4.buf == old(v4.buf) || fresh(v4.buf)) && (v6.buf == old(v6.buf) || fresh(v6.buf))
      ensures nexthop.None? ==> !ok && Current() == old(Current())
      ensures nexthop.Some? ==> Current() == After(old(Current()), Add(nexthop.value, up))
      ensures nexthop.Some? ==> ok == (up && nexthop.value !in old(Hops(Current(), nexthop.value.family)))
    {
      if nexthop.None? {
        return false;
      }
      var a := nexthop.value;
      ghost var st, list := Current(), Hops(Current(), a.family);
      var found := HasNexthop(a);
      if found {
        return false;
      }
      Append(a);
      ok := UpdateRoute(a.family, up);
      if !ok {
        var _ := TakeOut(a);
        RemovedUndoesAppend(a, list, 0);
        PutBack(st, a.family, list + [a]);
      }
    }

    method HasNexthop(a: Addr) returns (found: bool)
      requires Valid()
      ensures found <==> a in Hops(Current(), a.family)
    {
      var original := List(a.family);
      ghost var list := original.View();
      for i := 0 to original.len
        invariant a !in list[..i]
      {
        assert list[..i + 1] == list[..i] + [list[i]];
        if original.buf[i] == a {
          return true;
        }
      }
      assert list[..|list|] == list;
      found := false;
    }

    method Store(f: Family, list: Slice<Addr>)
      requires v4.Valid() && v6.Valid() && list.Valid() && list.buf != (if f.V4? then v6.buf else v4.buf)
      modifies this`v4, this`v6
      ensures Valid() && List(f) == list && (f.V4? ==> v6 == old(v6)) && (f.V6? ==> v4 == old(v4))
    {
      match f
      case V4 => v4 := list;
      case V6 => v6 := list;
    }

    /** The list may move to a larger buffer. */
    method Append(a: Addr)
      requires Valid()
      modifies this`v4, this`v6, v4.buf, v6.buf
      ensures Valid() && (v4.buf == old(v4.buf) || fresh(v4.buf)) && (v6.buf == old(v6.buf) || fresh(v6.buf))
      ensures Current() == WithList(old(Current()), a.family, Hops(old(Current()), a.family) + [a])
    {
      var longer := AppendOne(List(a.family), a);
      Store(a.family, longer);
    }

    method TakeOut(a: Addr) returns (removed: bool)
      requires Valid()
      modifies this`v4, this`v6, v4.buf, v6.buf
      ensures Valid() && v4.buf == old(v4.buf) && v6.buf == old(v6.buf)
      ensures removed == (a in old(Hops(Current(), a.family)))
      ensures Current() == WithList(old(Current()), a.family, Removed(a, Hops(old(Current()), a.family)))
    {
      var original := List(a.family);
      var list := RemoveAddrFromList(a, original);
      Store(a.family, list);
      removed := list.len < original.len;
    }

    method RemoveNexthop(nexthop: Option<Addr>, up: bool) returns (ok: bool)
      requires Valid()
      modifies this, v4.buf, v6.buf
      ensures Valid() && v4.buf == old(v4.buf) && v6.buf == old(v6.buf)
      ensures nexthop.None? ==> !ok && Current() == old(Current())
      ensures nexthop.Some? ==> Current() == After(old(Current()), Remove(nexthop.value, up))
      ensures nexthop.Some? ==> ok == (up || nexthop.value !in old(Hops(Current(), nexthop.value.family)))
    {
      if nexthop.None? {
        return false;
      }
      var a := nexthop.value;
      RemovedShrinks(a, Hops(Current(), a.family), 0);
      var removed := TakeOut(a);
      ok := true;
      if removed {
        assert List(a.family).View() == Hops(Current(), a.family);
        if List(a.family).len > 0 {
          ok := UpdateRoute(a.family, up);
        } else {
          ok := up;
          if up {
            routes := routes - {a.family};
          }
        }
      }
    }

    method UpdateRoute(f: Family, up: bool) returns (ok: bool)
      requires Valid()
      modifies this`routes
      ensures Valid() && ok == up
      ensures var st := old(Current());
              Current() == if up then State(st.nexthops, st.routes[f := Gateways(Hops(st, f))]) else st
    {
      var list := List(f);
      var gws: seq<Bytes> := [];
      for i := 0 to list.len
        invariant gws == Gateways(list.View())[..i]
      {
        gws := gws + [list.buf[i].ip];
      }
      assert Gateways(list.View())[..list.len] == Gateways(list.View());
      ok := up;
      if up {
        routes := routes[f := gws];
      }
    }
  }

  ghost function WithList(st: State, f: Family, list: seq<Addr>): State
  {
    st.(nexthops := st.nexthops[f := list])
  }

  lemma PutBack(st: State, f: Family, list: seq<Addr>)
    requires f in st.nexthops
    ensures WithList(WithList(st, f, list), f, Hops(st, f)) == st
  {
  }
}
