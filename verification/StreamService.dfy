/** The streams of one conduit and their identifier ranges (cmd/stateless-lb/main.go). Each call is one step. */
module StreamService {
  import opened Addresses
  import opened Identifiers
  import Watchers

  datatype Conduit = Conduit(name: string, trench: Option<string>) {
    /** Empty names match any name; both must have a trench. */
    predicate Equals(other: Option<Conduit>)
    {
      && other.Some?
      && (name == "" || other.value.name == "" || name == other.value.name)
      && trench.Some? && other.value.trench.Some?
      && (trench.value == "" || other.value.trench.value == "" || trench.value == other.value.trench.value)
    }
  }

  /** The conduit as the configuration knows it. */
  ghost function AsResource(c: Conduit): Watchers.Resource
  {
    var trench := if c.trench.Some? then Some(Watchers.Resource(c.trench.value, None, "")) else None;
    Watchers.Resource(c.name, trench, "")
  }

  /** A stream belongs to the conduit when the two conduits and their trenches agree, as in the configuration. */
  lemma EqualsIsLineage(c: Conduit, other: Option<Conduit>)
    ensures c.Equals(other) <==>
            other.Some? && Watchers.SameLineage(Watchers.Conduit, Some(AsResource(c)), Some(AsResource(other.value)))
  {
    if other.Some? {
      Watchers.Upwards(Some(AsResource(c)), 1);
      Watchers.Upwards(Some(AsResource(other.value)), 1);
    }
  }

  /** A stream of an update. `created` says whether the load balancer for it can be created if it is asked for. */
  datatype Listed = Listed(stream: Stream, conduit: Option<Conduit>, created: bool)

  /** A running stream, with the first of its `maxTargets` identifiers. */
  datatype Live = Live(maxTargets: nat, offset: int)

  datatype State = State(live: map<string, Live>, reserved: Reserved)

  ghost function OurNames(c: Conduit, list: seq<Listed>): set<string>
  {
    set x | x in list && c.Equals(x.conduit) :: x.stream.name
  }

  // ---------- steps on values ----------

  /** Where a stream is put: its reservation, or 0 when the unnoticed reservation failed. */
  ghost function Placed(r: Reserved, start: int, s: Stream): int
  {
    var answer := Answer(r, start, s);
    if answer.Some? then answer.value else 0
  }

  /** The reservation is made first and stays when the stream cannot be created. */
  ghost function AfterAdd(st: State, start: int, s: Stream, created: bool): State
  {
    if s.name in st.live then st
    else
      State(if created then st.live[s.name := Live(s.maxTargets, Placed(st.reserved, start, s))] else st.live,
            AfterGenerate(st.reserved, start, s))
  }

  /** The first loop of an update: the state, whether no addition failed, and whether every reservation that was asked
      for was available. */
  datatype Progress = Progress(st: State, ok: bool, available: bool)

  ghost function Added(c: Conduit, start: int, st: State, list: seq<Listed>): Progress
  {
    if |list| == 0 then Progress(st, true, true)
    else
      var p, x := Added(c, start, st, list[..|list| - 1]), list[|list| - 1];
      if c.Equals(x.conduit) && x.stream.name !in p.st.live then
        Progress(AfterAdd(p.st, start, x.stream, x.created), p.ok && x.created,
                 p.available && Available(p.st.reserved, start, x.stream))
      else p
  }

  /** Streams that are stopped lose their reservations. */
  ghost function Stopped(st: State, names: set<string>): State
  {
    State(st.live - names, map s | s in st.reserved && s.name !in names :: st.reserved[s])
  }

  ghost function Updated(c: Conduit, start: int, st: State, list: seq<Listed>): State
  {
    Stopped(Added(c, start, st, list).st, st.live.Keys - OurNames(c, list))
  }

  /** What is asked of the service; each call is one step of a run. */
  datatype Call = Update(list: seq<Listed>) | Evict

  /** Evicted streams keep their reservations, so a stream that comes back gets its old range. */
  ghost function After(c: Conduit, start: int, st: State, call: Call): State
  {
    match call
    case Update(list) => Updated(c, start, st, list)
    case Evict => State(map[], st.reserved)
  }

  ghost function RunFrom(c: Conduit, start: int, st: State, calls: seq<Call>): State
  {
    if |calls| == 0 then st
    else After(c, start, RunFrom(c, start, st, calls[..|calls| - 1]), calls[|calls| - 1])
  }

  ghost function Run(c: Conduit, start: int, calls: seq<Call>): State
  {
    RunFrom(c, start, State(map[], map[]), calls)
  }

  /** Every reservation asked for in the run was available when it was asked for. */
  ghost predicate RunAvailable(c: Conduit, start: int, calls: seq<Call>)
  {
    |calls| == 0 ||
    var before, call := calls[..|calls| - 1], calls[|calls| - 1];
    && RunAvailable(c, start, before)
    && (call.Update? ==> Added(c, start, Run(c, start, before), call.list).available)
  }

  // ---------- one addition ----------

  /** The reservations under other names. */
  ghost function Others(r: Reserved, name: string): Reserved
  {
    map s | s in r && s.name != name :: r[s]
  }

  /** A stream is put clear of the reservations of all others, at or above the start, if and only if its reservation was
      available and, should it have come back with another size, ends before the next reservation. */
  lemma PlacedRight(r: Reserved, start: int, s: Stream)
    requires Sound(r, start) && 0 < s.maxTargets <= MAX_UINT32
    ensures start <= Placed(r, start, s) && Free(Others(r, s.name), s.maxTargets, Placed(r, start, s)) <==>
            && Available(r, start, s)
            && forall u, t :: u in r && t in r && u.name == s.name && r[u] < r[t] ==> r[u] + s.maxTargets <= r[t]
  {
    AnswerIsAvailable(r, start, s);
    if HasName(r, s.name) {
      var u :| u in r && u.name == s.name;
      assert Placed(r, start, s) == r[u];
      ResizedKeepsClear(r, start, u, s.maxTargets);
      assert forall t :: t in Others(r, s.name) <==> t in r && t != u;
    } else {
      assert Others(r, s.name) == r;
    }
  }

  /** The stream has the size its name has in this run; the sizes of a run are fixed, one for each name. */
  ghost predicate HasSize(s: Stream, size: map<string, nat>)
  {
    s.name in size && size[s.name] == s.maxTargets && 0 < s.maxTargets <= MAX_UINT32
  }

  /** Every live stream uses the range reserved under its name. */
  ghost predicate Backed(live: map<string, Live>, r: Reserved, size: map<string, nat>)
  {
    && (forall s :: s in r ==> HasSize(s, size))
    && (forall n :: n in live ==> BackedBy(n, live[n], r))
  }

  ghost predicate BackedBy(name: string, l: Live, r: Reserved)
  {
    exists s :: s in r && s.name == name && s.maxTargets == l.maxTargets && r[s] == l.offset
  }

  ghost predicate Good(st: State, start: int, size: map<string, nat>)
  {
    Sound(st.reserved, start) && Backed(st.live, st.reserved, size)
  }

  /** Live streams have disjoint identifier ranges, none below `start`. */
  ghost predicate RangesDisjoint(live: map<string, Live>, start: int)
  {
    && (forall n :: n in live ==> start <= live[n].offset)
    && (forall m, n :: m in live && n in live && m != n ==>
          !Overlap(live[m].offset, live[m].maxTargets, live[n].offset, live[n].maxTargets))
  }

  lemma GoodIsDisjoint(st: State, start: int, size: map<string, nat>)
    requires Good(st, start, size)
    ensures RangesDisjoint(st.live, start)
  {
    var live, r := st.live, st.reserved;
    forall n | n in live ensures start <= live[n].offset {
      assert BackedBy(n, live[n], r);
    }
    forall m, n | m in live && n in live && m != n
      ensures !Overlap(live[m].offset, live[m].maxTargets, live[n].offset, live[n].maxTargets)
    {
      assert BackedBy(m, live[m], r) && BackedBy(n, live[n], r);
      var s :| s in r && s.name == m && s.maxTargets == live[m].maxTargets && r[s] == live[m].offset;
      var t :| t in r && t.name == n && t.maxTargets == live[n].maxTargets && r[t] == live[n].offset;
    }
  }

  /** A reservation keeps the others and is there under the stream's name afterwards. */
  lemma Reserves(r: Reserved, start: int, size: map<string, nat>, s: Stream)
    requires Sound(r, start) && HasSize(s, size) && Available(r, start, s)
    requires forall t :: t in r ==> HasSize(t, size)
    ensures var next := AfterGenerate(r, start, s);
            && Sound(next, start) && (forall t :: t in next ==> HasSize(t, size))
            && (forall t :: t in r ==> t in next && next[t] == r[t])
            && BackedBy(s.name, Live(s.maxTargets, Placed(r, start, s)), next)
  {
    AnswerIsAvailable(r, start, s);
    var next, offset := AfterGenerate(r, start, s), Placed(r, start, s);
    if HasName(r, s.name) {
      var t :| t in r && t.name == s.name;
      assert t.maxTargets == s.maxTargets && r[t] == offset;
    } else {
      FreeExtends(r, start, s, offset);
      assert s in next && next[s] == offset;
    }
  }

  lemma BackedStays(name: string, l: Live, r: Reserved, next: Reserved)
    requires BackedBy(name, l, r) && forall t :: t in r && t.name == name ==> t in next && next[t] == r[t]
    ensures BackedBy(name, l, next)
  {
    var t :| t in r && t.name == name && t.maxTargets == l.maxTargets && r[t] == l.offset;
    assert t in next && next[t] == r[t];
  }

  lemma AddKeepsGood(st: State, start: int, s: Stream, created: bool, size: map<string, nat>)
    requires Good(st, start, size) && HasSize(s, size) && Available(st.reserved, start, s)
    ensures Good(AfterAdd(st, start, s, created), start, size)
  {
    var next := AfterAdd(st, start, s, created);
    Reserves(st.reserved, start, size, s);
    if s.name !in st.live {
      forall n | n in next.live ensures BackedBy(n, next.live[n], next.reserved) {
        if n in st.live {
          BackedStays(n, st.live[n], st.reserved, next.reserved);
        }
      }
    }
  }

  lemma StoppedKeepsGood(st: State, start: int, names: set<string>, size: map<string, nat>)
    requires Good(st, start, size)
    ensures Good(Stopped(st, names), start, size)
  {
    var next := Stopped(st, names);
    forall n | n in next.live ensures BackedBy(n, next.live[n], next.reserved) {
      BackedStays(n, st.live[n], st.reserved, next.reserved);
    }
  }

  // ---------- few names ----------

  /** So few names that there is room for all of their ranges, however they are spread. */
  ghost predicate Few(size: map<string, nat>, start: int)
  {
    |size| <= 0x1000_0000 && start <= 0x4000_0000_0000_0000
  }

  lemma {:induction false} OnePerName(r: Reserved, names: set<string>)
    requires forall s, t :: s in r && t in r && s.name == t.name ==> s == t
    requires forall s :: s in r ==> s.name in names
    ensures |r| <= |names|
    decreases r.Keys
  {
    if r != map[] {
      var s :| s in r;
      assert (r - {s}).Keys == r.Keys - {s};
      OnePerName(r - {s}, names - {s.name});
    }
  }

  /** With few names no reservation can fail. */
  lemma FewFit(r: Reserved, start: int, size: map<string, nat>, s: Stream)
    requires Sound(r, start) && Few(size, start) && HasSize(s, size)
    requires forall t :: t in r ==> HasSize(t, size)
    ensures Available(r, start, s)
  {
    if !Available(r, start, s) {
      OnePerName(r, size.Keys);
      FailsOnlyWhenFull(r, start, s, 2 * MAX_UINT32 - 1);
      assert false;
    }
  }

  // ---------- every run ----------

  /** Our streams in the list have their sizes. */
  ghost predicate Sized(c: Conduit, list: seq<Listed>, size: map<string, nat>)
  {
    forall i :: 0 <= i < |list| && c.Equals(list[i].conduit) ==> HasSize(list[i].stream, size)
  }

  lemma {:induction false} AddedKeepsGood(c: Conduit, start: int, st: State, list: seq<Listed>, size: map<string, nat>)
    requires Good(st, start, size) && Sized(c, list, size)
    ensures Added(c, start, st, list).available ==> Good(Added(c, start, st, list).st, start, size)
    ensures Few(size, start) ==> Added(c, start, st, list).available
  {
    if |list| > 0 {
      var n := |list| - 1;
      var p, s := Added(c, start, st, list[..n]), list[n].stream;
      AddedKeepsGood(c, start, st, list[..n], size);
      if p.available && c.Equals(list[n].conduit) && s.name !in p.st.live {
        if Few(size, start) {
          FewFit(p.st.reserved, start, size, s);
        }
        if Available(p.st.reserved, start, s) {
          AddKeepsGood(p.st, start, s, list[n].created, size);
        }
      }
    }
  }

  ghost predicate RunSized(c: Conduit, calls: seq<Call>, size: map<string, nat>)
  {
    forall i :: 0 <= i < |calls| && calls[i].Update? ==> Sized(c, calls[i].list, size)
  }

  lemma {:induction false} RunGood(c: Conduit, start: int, calls: seq<Call>, size: map<string, nat>)
    requires RunSized(c, calls, size)
    ensures RunAvailable(c, start, calls) ==> Good(Run(c, start, calls), start, size)
    ensures Few(size, start) ==> RunAvailable(c, start, calls)
  {
    if |calls| > 0 {
      var n := |calls| - 1;
      var st, call := Run(c, start, calls[..n]), calls[n];
      RunGood(c, start, calls[..n], size);
      if RunAvailable(c, start, calls[..n]) && call.Update? {
        AddedKeepsGood(c, start, st, call.list, size);
        if Added(c, start, st, call.list).available {
          StoppedKeepsGood(Added(c, start, st, call.list).st, start, st.live.Keys - OurNames(c, call.list), size);
        }
      }
    }
  }

  /** In every state of every run in which sizes are fixed and no reservation fails, live streams have disjoint ranges
      at or above the start; with few names no reservation fails. */
  lemma RunDisjoint(c: Conduit, start: int, calls: seq<Call>, size: map<string, nat>, n: nat)
    requires RunSized(c, calls, size) && n <= |calls| && (RunAvailable(c, start, calls) || Few(size, start))
    ensures RangesDisjoint(Run(c, start, calls[..n]).live, start)
  {
    RunGood(c, start, calls, size);
    AvailableBefore(c, start, calls, n);
    RunGood(c, start, calls[..n], size);
    GoodIsDisjoint(Run(c, start, calls[..n]), start, size);
  }

  lemma {:induction false} AvailableBefore(c: Conduit, start: int, calls: seq<Call>, n: nat)
    requires n <= |calls| && RunAvailable(c, start, calls)
    ensures RunAvailable(c, start, calls[..n])
  {
    if n < |calls| {
      AvailableBefore(c, start, calls[..|calls| - 1], n);
      assert calls[..|calls| - 1][..n] == calls[..n];
    } else {
      assert calls[..n] == calls;
    }
  }

  /** Two streams whose reservations fail, at the very end of the identifiers: both are put at 0. */
  lemma FailedReservationsOverlap(c: Conduit)
    requires c.Equals(Some(c))
    ensures var list := [Listed(Stream("a", 10), Some(c), true), Listed(Stream("b", 10), Some(c), true)];
            var live := Run(c, MAX_INT - 5, [Update(list)]).live;
            live == map["a" := Live(10, 0), "b" := Live(10, 0)] && !RangesDisjoint(live, MAX_INT - 5)
  {
    var start, a, b := MAX_INT - 5, Listed(Stream("a", 10), Some(c), true), Listed(Stream("b", 10), Some(c), true);
    var none := State(map[], map[]);
    assert "a"[0] != "b"[0];
    AnswerIsAvailable(map[], start, a.stream);
    AnswerIsAvailable(map[], start, b.stream);
    assert [a, b][..1] == [a] && [a][..0] == [];
    assert Added(c, start, none, []).st == none;
    assert Added(c, start, none, [a]).st == State(map["a" := Live(10, 0)], map[]);
    assert Added(c, start, none, [a, b]).st == State(map["a" := Live(10, 0), "b" := Live(10, 0)], map[]);
    assert [Update([a, b])][..0] == [];
    assert Run(c, start, []) == none;
  }

  // ---------- which streams are live ----------

  lemma OurNamesOneMore(c: Conduit, list: seq<Listed>, x: Listed)
    ensures OurNames(c, list + [x]) == OurNames(c, list) + (if c.Equals(x.conduit) then {x.stream.name} else {})
  {
    assert forall y :: y in list + [x] <==> y in list || y == x;
  }

  /** The first loop leaves the streams there are alone and adds streams of the list, all of them without an error. */
  lemma {:induction false} AddedNames(c: Conduit, start: int, st: State, list: seq<Listed>)
    ensures var p, ours := Added(c, start, st, list), OurNames(c, list);
            && p.st.live.Keys <= st.live.Keys + ours && (p.ok ==> ours <= p.st.live.Keys)
            && (forall n :: n in st.live ==> n in p.st.live && p.st.live[n] == st.live[n])
  {
    if |list| > 0 {
      var n := |list| - 1;
      AddedNames(c, start, st, list[..n]);
      assert list == list[..n] + [list[n]];
      OurNamesOneMore(c, list[..n], list[n]);
    }
  }

  /** An addition fails only when a stream cannot be created. */
  lemma {:induction false} AddedOk(c: Conduit, start: int, st: State, list: seq<Listed>)
    requires forall i :: 0 <= i < |list| && c.Equals(list[i].conduit) ==> list[i].created
    ensures Added(c, start, st, list).ok
  {
    if |list| > 0 {
      AddedOk(c, start, st, list[..|list| - 1]);
    }
  }

  /** After an update only streams of the conduit are live, all of them if none failed to be added, and those that were
      live before keep their ranges. */
  lemma UpdatedNames(c: Conduit, start: int, st: State, list: seq<Listed>)
    ensures var r, ours := Updated(c, start, st, list), OurNames(c, list);
            && r.live.Keys <= ours && (Added(c, start, st, list).ok ==> r.live.Keys == ours)
            && (forall n :: n in st.live && n in ours ==> n in r.live && r.live[n] == st.live[n])
  {
    AddedNames(c, start, st, list);
  }

  // ---------- which ranges are reserved ----------

  /** An addition that finds a range reserves it, created or not, and touches no other name. */
  lemma AddReserves(st: State, start: int, s: Stream, created: bool, n: string)
    requires s.name !in st.live
    ensures HasName(AfterAdd(st, start, s, created).reserved, n) <==>
            HasName(st.reserved, n) || (n == s.name && Available(st.reserved, start, s))
  {
    AnswerIsAvailable(st.reserved, start, s);
    var r, next := st.reserved, AfterGenerate(st.reserved, start, s);
    if t :| t in r && t.name == n {
      assert t in next;
    }
    if !HasName(r, s.name) && Available(r, start, s) {
      assert s in next;
    }
  }

  lemma {:induction false} AddedReserves(c: Conduit, start: int, st: State, list: seq<Listed>, n: string)
    ensures HasName(st.reserved, n) ==> HasName(Added(c, start, st, list).st.reserved, n)
    ensures HasName(Added(c, start, st, list).st.reserved, n) ==> HasName(st.reserved, n) || n in OurNames(c, list)
  {
    if |list| > 0 {
      var k := |list| - 1;
      var p, x := Added(c, start, st, list[..k]), list[k];
      AddedReserves(c, start, st, list[..k], n);
      assert list == list[..k] + [x];
      OurNamesOneMore(c, list[..k], x);
      if c.Equals(x.conduit) && x.stream.name !in p.st.live {
        AddReserves(p.st, start, x.stream, x.created, n);
      }
    }
  }

  lemma StoppedReserves(st: State, names: set<string>, n: string)
    ensures HasName(Stopped(st, names).reserved, n) <==> HasName(st.reserved, n) && n !in names
  {
    if t :| t in st.reserved && t.name == n && n !in names {
      assert t in Stopped(st, names).reserved;
    }
  }

  /** An update frees the ranges of the streams it stops, and of no others. */
  lemma UpdateFrees(c: Conduit, start: int, st: State, list: seq<Listed>, n: string)
    ensures n in st.live && n !in OurNames(c, list) ==> !HasName(Updated(c, start, st, list).reserved, n)
    ensures n !in st.live && n !in OurNames(c, list) ==>
      (HasName(Updated(c, start, st, list).reserved, n) <==> HasName(st.reserved, n))
    ensures n in OurNames(c, list) && HasName(st.reserved, n) ==> HasName(Updated(c, start, st, list).reserved, n)
  {
    AddedReserves(c, start, st, list, n);
    StoppedReserves(Added(c, start, st, list).st, st.live.Keys - OurNames(c, list), n);
  }

  /** Exactly the live streams have reservations. */
  ghost predicate OnlyLive(st: State)
  {
    forall n :: HasName(st.reserved, n) <==> n in st.live
  }

  lemma {:induction false} AddedOnlyLive(c: Conduit, start: int, st: State, list: seq<Listed>)
    requires OnlyLive(st) && Added(c, start, st, list).available && Added(c, start, st, list).ok
    ensures OnlyLive(Added(c, start, st, list).st)
  {
    if |list| > 0 {
      var k := |list| - 1;
      var p, x := Added(c, start, st, list[..k]), list[k];
      AddedOnlyLive(c, start, st, list[..k]);
      if c.Equals(x.conduit) && x.stream.name !in p.st.live {
        forall n ensures HasName(Added(c, start, st, list).st.reserved, n) <==> n in Added(c, start, st, list).st.live {
          AddReserves(p.st, start, x.stream, x.created, n);
        }
      }
    }
  }

  /** In every run of updates without evictions in which every addition succeeds and finds a range, the streams with
      reservations are exactly the live ones. */
  lemma {:induction false} RunOnlyLive(c: Conduit, start: int, calls: seq<Call>)
    requires RunAvailable(c, start, calls)
    requires forall i :: 0 <= i < |calls| ==>
      calls[i].Update? && Added(c, start, Run(c, start, calls[..i]), calls[i].list).ok
    ensures OnlyLive(Run(c, start, calls))
  {
    if |calls| > 0 {
      var k := |calls| - 1;
      assert forall i :: 0 <= i < k ==> calls[..k][..i] == calls[..i];
      RunOnlyLive(c, start, calls[..k]);
      var st, list := Run(c, start, calls[..k]), calls[k].list;
      AddedOnlyLive(c, start, st, list);
      var mid, gone := Added(c, start, st, list).st, st.live.Keys - OurNames(c, list);
      assert Run(c, start, calls) == Stopped(mid, gone);
      forall n ensures HasName(Stopped(mid, gone).reserved, n) <==> n in Stopped(mid, gone).live {
        StoppedReserves(mid, gone, n);
      }
    }
  }

  /** An eviction leaves no stream and all reservations; a stream that comes back with its size gets its old range. */
  lemma ComesBack(c: Conduit, start: int, st: State, size: map<string, nat>, n: string)
    requires Good(st, start, size) && n in st.live
    ensures var r := After(c, start, st, Evict);
            && r.live == map[] && r.reserved == st.reserved
            && AfterAdd(r, start, Stream(n, st.live[n].maxTargets), true).live[n] == st.live[n]
  {
    assert BackedBy(n, st.live[n], st.reserved);
    var t :| t in st.reserved && t.name == n && t.maxTargets == st.live[n].maxTargets
             && st.reserved[t] == st.live[n].offset;
    assert HasName(st.reserved, n);
  }

  // ---------- the service ----------

  class SimpleNetworkService {
    const conduit: Conduit
    const generator: IdentifierOffsetGenerator
    var streams: map<string, Live>
    var nfqueueIndex: int

    constructor (conduit: Conduit, generator: IdentifierOffsetGenerator)
      requires generator.Valid() && generator.streams == map[]
      ensures this.conduit == conduit && this.generator == generator && Valid() && Current() == State(map[], map[])
    {
      this.conduit := conduit;
      this.generator := generator;
      streams := map[];
      nfqueueIndex := 1;
    }

    ghost predicate Valid()
      reads this, generator
    {
      generator.Valid()
    }

    ghost function Current(): State
      reads this, generator
    {
      State(streams, generator.streams)
    }

    /** Only an existing stream is an error of Generate's caller: a failed Generate is not noticed. The steps after it
        may fail. */
    method AddStream(s: Stream, created: bool) returns (ok: bool)
      requires Valid() && s.maxTargets <= MAX_UINT32
      modifies this, generator`streams
      ensures Valid() && Current() == AfterAdd(old(Current()), generator.start, s, created)
      ensures ok == (s.name !in old(streams) && created)
      ensures nfqueueIndex == old(nfqueueIndex) + (if ok then 1 else 0)
    {
      if s.name in streams {
        return false;
      }
      var generation := generator.Generate(s);
      var offset := if generation.Some? then generation.value else 0;
      if !created {
        return false;
      }
      nfqueueIndex := nfqueueIndex + 1;
      streams := streams[s.name := Live(s.maxTargets, offset)];
      ok := true;
    }

    /** The stream is forgotten even when stopping it fails. */
    method DeleteStream(name: string, stops: bool) returns (ok: bool)
      requires Valid()
      modifies this`streams, generator`streams
      ensures Valid() && ok == (name !in old(streams) || stops)
      ensures Current() == if name in old(streams) then Stopped(old(Current()), {name}) else old(Current())
    {
      if name !in streams {
        return true;
      }
      generator.Release(name);
      streams := streams - {name};
      ok := stops;
    }

    method EvictStreams()
      requires Valid()
      modifies this`streams
      ensures Valid() && Current() == After(conduit, generator.start, old(Current()), Evict)
    {
      streams := map[];
    }

    /** `failing` are the streams that cannot be stopped properly. */
    method UpdateStreams(list: seq<Listed>, failing: set<string>) returns (ok: bool)
      requires Valid() && forall x :: x in list ==> x.stream.maxTargets <= MAX_UINT32
      modifies this, generator`streams
      ensures Valid() && Current() == Updated(conduit, generator.start, old(Current()), list)
      ensures ok == (Added(conduit, generator.start, old(Current()), list).ok
                     && (old(streams).Keys - OurNames(conduit, list)) !! failing)
      ensures ok ==> streams.Keys == OurNames(conduit, list)
    {
      AddedNames(conduit, generator.start, Current(), list);
      UpdatedNames(conduit, generator.start, Current(), list);
      var remaining, deleted;
      ok, remaining := AddListed(list);
      deleted := DeleteAll(remaining, failing);
      ok := ok && deleted;
    }

    /** The first loop: streams of this conduit are added or struck off the names that remain to be deleted. */
    method AddListed(list: seq<Listed>) returns (ok: bool, remaining: set<string>)
      requires Valid() && forall x :: x in list ==> x.stream.maxTargets <= MAX_UINT32
      modifies this, generator`streams
      ensures Valid() && remaining == old(streams).Keys - OurNames(conduit, list)
      ensures var p := Added(conduit, generator.start, old(Current()), list); Current() == p.st && ok == p.ok
    {
      ghost var st := Current();
      remaining := streams.Keys;
      ok := true;
      for i := 0 to |list|
        invariant Valid() && remaining == st.live.Keys - OurNames(conduit, list[..i])
        invariant Current() == Added(conduit, generator.start, st, list[..i]).st
        invariant ok == Added(conduit, generator.start, st, list[..i]).ok
      {
        assert list[i] in list;
        NextListed(conduit, generator.start, st, list, i);
        if conduit.Equals(list[i].conduit) {
          var s := list[i].stream;
          if s.name !in streams {
            var added := AddStream(s, list[i].created);
            ok := ok && added;
          } else {
            remaining := remaining - {s.name};
          }
        }
      }
      assert list[..|list|] == list;
    }

    method DeleteAll(names: set<string>, failing: set<string>) returns (ok: bool)
      requires Valid() && names <= streams.Keys
      modifies this`streams, generator`streams
      ensures Valid() && Current() == Stopped(old(Current()), names) && ok == (names !! failing)
    {
      ghost var st := Current();
      var left := names;
      ok := true;
      assert Current() == Stopped(st, {});
      while left != {}
        invariant Valid() && left <= names && Current() == Stopped(st, names - left)
        invariant ok == ((names - left) !! failing)
      {
        var name :| name in left;
        assert names - (left - {name}) == (names - left) + {name};
        StoppedBoth(st, names - left, name);
        var deleted := DeleteStream(name, name !in failing);
        ok := ok && deleted;
        left := left - {name};
      }
      assert names - left == names;
    }

    /** Any run of calls. */
    method Serve(calls: seq<Call>)
      requires Valid()
      requires forall c, x :: c in calls && c.Update? && x in c.list ==> x.stream.maxTargets <= MAX_UINT32
      modifies this, generator`streams
      ensures Valid() && Current() == RunFrom(conduit, generator.start, old(Current()), calls)
    {
      ghost var st := Current();
      for i := 0 to |calls|
        invariant Valid() && Current() == RunFrom(conduit, generator.start, st, calls[..i])
      {
        assert calls[i] in calls && calls[..i + 1][..i] == calls[..i];
        match calls[i]
        case Evict =>
          EvictStreams();
        case Update(list) =>
          var failing: set<string> := *;
          var ok := UpdateStreams(list, failing);
      }
      assert calls[..|calls|] == calls;
    }
  }

  /** One more entry of the list. */
  lemma NextListed(c: Conduit, start: int, st: State, list: seq<Listed>, i: nat)
    requires i < |list|
    ensures var p, x := Added(c, start, st, list[..i]), list[i];
            Added(c, start, st, list[..i + 1]) ==
            if c.Equals(x.conduit) && x.stream.name !in p.st.live then
              Progress(AfterAdd(p.st, start, x.stream, x.created), p.ok && x.created,
                       p.available && Available(p.st.reserved, start, x.stream))
            else p
    ensures OurNames(c, list[..i + 1]) ==
            OurNames(c, list[..i]) + (if c.Equals(list[i].conduit) then {list[i].stream.name} else {})
    ensures forall n :: n in st.live ==> n in Added(c, start, st, list[..i]).st.live
  {
    assert list[..i + 1] == list[..i] + [list[i]] && list[..i + 1][..i] == list[..i];
    OurNamesOneMore(c, list[..i], list[i]);
    AddedNames(c, start, st, list[..i]);
  }

  lemma StoppedBoth(st: State, names: set<string>, name: string)
    ensures Stopped(Stopped(st, names), {name}) == Stopped(st, names + {name})
  {
  }
}
