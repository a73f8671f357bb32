/** The configuration registry (pkg/configuration/registry/registry.go), its watchers and the event queue between
    them (pkg/configuration/manager/watcher.go). */
module Watchers {
  import opened Addresses
  import opened Lists

  datatype Kind = Trench | Conduit | Stream | Flow | Vip | Attractor | Gateway {
    /** The kind of the resource a resource of this kind belongs to. */
    function Parent(): Option<Kind>
    {
      match this
      case Trench => None
      case Conduit => Some(Trench)
      case Stream => Some(Conduit)
      case Flow => Some(Stream)
      case Vip => Some(Trench)
      case Attractor => Some(Trench)
      case Gateway => Some(Trench)
    }

    function Depth(): nat
    {
      match this
      case Trench => 0
      case Conduit => 1
      case Stream => 2
      case Flow => 3
      case Vip => 1
      case Attractor => 1
      case Gateway => 1
    }
  }

  /** A configured resource: its name, what it belongs to, and the rest of its message. */
  datatype Resource = Resource(name: string, parent: Option<Resource>, rest: string)

  // ---------- filtered getters ----------

  /** The Equals methods: an empty name matches any name; nil matches nothing, except two nil streams. */
  predicate Equals(k: Kind, a: Option<Resource>, b: Option<Resource>)
    decreases k.Depth()
  {
    if k == Stream && a.None? && b.None? then true
    else if a.None? || b.None? then false
    else
      && (a.value.name == "" || b.value.name == "" || a.value.name == b.value.name)
      && (k.Parent().Some? ==> Equals(k.Parent().value, a.value.parent, b.value.parent))
  }

  /** What a getter keeps. The trench is compared by its name alone, and an empty name is no wildcard there. */
  predicate Wanted(k: Kind, toWatch: Option<Resource>, r: Resource)
  {
    toWatch.None? || (if k == Trench then toWatch.value.name == r.name else Equals(k, Some(r), toWatch))
  }

  function Filtered(k: Kind, toWatch: Option<Resource>, rs: seq<Resource>): (res: seq<Resource>)
  {
    if |rs| == 0 then []
    else Filtered(k, toWatch, rs[..|rs| - 1]) + (if Wanted(k, toWatch, rs[|rs| - 1]) then [rs[|rs| - 1]] else [])
  }

  type Registry = map<Kind, seq<Resource>>

  function Contents(reg: Registry, k: Kind): seq<Resource>
  {
    if k in reg then reg[k] else []
  }

  function Get(reg: Registry, k: Kind, toWatch: Option<Resource>): seq<Resource>
  {
    Filtered(k, toWatch, Contents(reg, k))
  }

  lemma {:induction false} FilteredAll(k: Kind, rs: seq<Resource>)
    ensures Filtered(k, None, rs) == rs
  {
    if |rs| > 0 {
      FilteredAll(k, rs[..|rs| - 1]);
      assert Wanted(k, None, rs[|rs| - 1]);
      assert rs == rs[..|rs| - 1] + [rs[|rs| - 1]];
    }
  }

  // ---------- what a getter returns ----------

  /** The resource itself, what it belongs to, what that belongs to, and so on. */
  ghost function Ancestor(r: Option<Resource>, n: nat): Option<Resource>
  {
    if n == 0 || r.None? then r else Ancestor(r.value.parent, n - 1)
  }

  /** Both are there and their names agree, or one of them is empty. */
  ghost predicate SameAt(a: Option<Resource>, b: Option<Resource>)
  {
    a.Some? && b.Some? && (a.value.name == b.value.name || a.value.name == "" || b.value.name == "")
  }

  /** At every level up to the trench the two agree. Two missing streams agree, with nothing above them. */
  ghost predicate SameLineage(k: Kind, a: Option<Resource>, b: Option<Resource>)
  {
    || (&& SameAt(a, b)
        && (1 <= Levels(k) ==> SameAt(Ancestor(a, 1), Ancestor(b, 1)))
        && (2 <= Levels(k) ==> SameAt(Ancestor(a, 2), Ancestor(b, 2)))
        && (3 <= Levels(k) ==> SameAt(Ancestor(a, 3), Ancestor(b, 3))))
    || (k == Stream && a.None? && b.None?)
    || (k == Flow && SameAt(a, b) && Ancestor(a, 1).None? && Ancestor(b, 1).None?)
  }

  /** How many levels the trench is above a resource: flows belong to streams, streams to conduits, the rest to it. */
  ghost function Levels(k: Kind): nat
  {
    if k == Trench then 0 else if k == Flow then 3 else if k == Stream then 2 else 1
  }

  /** The Equals methods compare whole lineages. */
  lemma {:induction false} EqualsIsLineage(k: Kind, a: Option<Resource>, b: Option<Resource>)
    ensures Equals(k, a, b) <==> SameLineage(k, a, b)
    decreases k.Depth()
  {
    if a.Some? && b.Some? && k != Trench {
      var p := k.Parent().value;
      EqualsIsLineage(p, a.value.parent, b.value.parent);
      Upwards(a, 1);
      Upwards(b, 1);
      Upwards(a, 2);
      Upwards(b, 2);
      Upwards(a, 3);
      Upwards(b, 3);
    }
  }

  lemma Upwards(r: Option<Resource>, n: nat)
    requires r.Some? && n > 0
    ensures Ancestor(r, n) == Ancestor(r.value.parent, n - 1)
  {
  }

  /** What a getter with a filter is to keep: trenches by name, anything else by lineage. */
  ghost predicate Keeps(k: Kind, w: Resource, r: Resource)
  {
    if k == Trench then r.name == w.name else SameLineage(k, Some(r), Some(w))
  }

  lemma OneMoreCounted(rs: seq<Resource>, x: Resource, kept: seq<Resource>, keep: bool, r: Resource)
    ensures multiset(rs + [x])[r] == multiset(rs)[r] + if r == x then 1 else 0
    ensures multiset(kept + (if keep then [x] else []))[r] == multiset(kept)[r] + if keep && r == x then 1 else 0
  {
  }

  lemma {:induction false} FilteredCounts(k: Kind, toWatch: Option<Resource>, rs: seq<Resource>, r: Resource)
    ensures multiset(Filtered(k, toWatch, rs))[r] == if Wanted(k, toWatch, r) then multiset(rs)[r] else 0
  {
    if |rs| > 0 {
      var n := |rs| - 1;
      var wanted := Wanted(k, toWatch, rs[n]);
      FilteredCounts(k, toWatch, rs[..n], r);
      OneMoreCounted(rs[..n], rs[n], Filtered(k, toWatch, rs[..n]), wanted, r);
      assert rs == rs[..n] + [rs[n]];
    }
  }

  lemma {:induction false} FilteredInOrder(k: Kind, toWatch: Option<Resource>, rs: seq<Resource>)
    ensures Subsequence(Filtered(k, toWatch, rs), rs)
  {
    if |rs| > 0 {
      var n := |rs| - 1;
      FilteredInOrder(k, toWatch, rs[..n]);
      assert rs == rs[..n] + [rs[n]];
      SubsequenceOneMore(Filtered(k, toWatch, rs[..n]), rs[..n], rs[n], Wanted(k, toWatch, rs[n]));
    }
  }

  /** A getter returns, in order, exactly the resources of its kind that agree with the filter at every level; without a
      filter, all of them. */
  lemma GetterKeeps(reg: Registry, k: Kind, w: Resource, r: Resource)
    requires k in reg
    ensures multiset(Get(reg, k, Some(w)))[r] == if Keeps(k, w, r) then multiset(reg[k])[r] else 0
    ensures Subsequence(Get(reg, k, Some(w)), reg[k]) && Get(reg, k, None) == reg[k]
  {
    EqualsIsLineage(k, Some(r), Some(w));
    FilteredCounts(k, Some(w), reg[k], r);
    FilteredInOrder(k, Some(w), reg[k]);
    FilteredAll(k, reg[k]);
  }

  class ConfigurationRegistry {
    const hasChan: bool
    var resources: Registry
    var events: seq<Kind>

    constructor (hasChan: bool)
      ensures this.hasChan == hasChan && resources == map[] && events == []
    {
      this.hasChan := hasChan;
      resources, events := map[], [];
    }

    /** A setter replaces the resources of its kind, then sends the event if there is a channel. */
    method SetResources(k: Kind, value: seq<Resource>)
      modifies this
      ensures resources == old(resources)[k := value]
      ensures events == if hasChan then old(events) + [k] else old(events)
    {
      resources := resources[k := value];
      if hasChan {
        events := events + [k];
      }
    }

    method GetResources(k: Kind, toWatch: Option<Resource>) returns (res: seq<Resource>)
      ensures res == Get(resources, k, toWatch)
    {
      var all := Contents(resources, k);
      if toWatch.None? {
        FilteredAll(k, all);
        return all;
      }
      res := [];
      for i := 0 to |all|
        invariant res == Filtered(k, toWatch, all[..i])
      {
        assert all[..i + 1][..i] == all[..i];
        if Wanted(k, toWatch, all[i]) {
          res := res + [all[i]];
        }
      }
      assert all[..|all|] == all;
    }
  }

  // ---------- the protocol ----------

  /** A watcher's channel; its type gives the kind of resource. */
  datatype Chan = Chan(id: nat, kind: Kind)

  datatype Round = Idle | Visiting(kind: Kind, left: set<Chan>)

  datatype State = State(
    reg: Registry,
    unsent: multiset<Kind>,              // setters that have assigned but not yet sent their event
    events: seq<Kind>,                   // the event channel
    round: Round,                        // the notifier's walk over the watchers of one kind
    watchers: map<Chan, Option<Resource>>,
    joining: set<Chan>,                  // stored, first notification still to come
    used: set<Chan>,                     // channels ever registered
    last: map<Chan, seq<Resource>>)      // last message on each channel

  datatype Step =
    | Assign(k: Kind, value: seq<Resource>)
    | Send(k: Kind)
    | Receive
    | Visit(ch: Chan)
    | Skip(ch: Chan)
    | Extra(ch: Chan)
    | EndRound
    | Store(ch: Chan, toWatch: Option<Resource>)
    | FirstNotify(ch: Chan)
    | Unregister(ch: Chan)

  /** The event channel's buffer; a setter waits while it is full. */
  const EVENT_CAPACITY: nat := 10

  const INIT := State(map[], multiset{}, [], Idle, map[], {}, {}, map[])

  /** When a step may be taken. The walk visits every watcher that is there throughout, may visit one stored on the
      way, and may skip one only when it is gone. Every watch call opens a channel of its own. */
  predicate Enabled(st: State, s: Step)
  {
    match s
    case Assign(_, _) => true
    case Send(k) => k in st.unsent && |st.events| < EVENT_CAPACITY
    case Receive => st.round == Idle && |st.events| > 0
    case Visit(ch) => st.round.Visiting? && ch in st.round.left && ch in st.watchers
    case Skip(ch) => st.round.Visiting? && ch in st.round.left && ch !in st.watchers
    case Extra(ch) => st.round.Visiting? && ch.kind == st.round.kind && ch in st.watchers
    case EndRound => st.round.Visiting? && st.round.left == {}
    case Store(ch, _) => ch !in st.used
    case FirstNotify(ch) => ch in st.joining && ch in st.watchers
    case Unregister(ch) => ch !in st.joining
  }

  /** notify: the watcher is sent what the getter returns now. */
  function Notified(st: State, ch: Chan): State
    requires ch in st.watchers
  {
    st.(last := st.last[ch := Get(st.reg, ch.kind, st.watchers[ch])])
  }

  function After(st: State, s: Step): State
    requires Enabled(st, s)
  {
    match s
    case Assign(k, value) => st.(reg := st.reg[k := value], unsent := st.unsent + multiset{k})
    case Send(k) => st.(unsent := st.unsent - multiset{k}, events := st.events + [k])
    case Receive =>
      var k := st.events[0];
      st.(events := st.events[1..], round := Visiting(k, OfKind(st.watchers, k)))
    case Visit(ch) => Notified(st, ch).(round := Visiting(st.round.kind, st.round.left - {ch}))
    case Skip(ch) => st.(round := Visiting(st.round.kind, st.round.left - {ch}))
    case Extra(ch) => Notified(st, ch)
    case EndRound => st.(round := Idle)
    case Store(ch, toWatch) =>
      st.(watchers := st.watchers[ch := toWatch], joining := st.joining + {ch}, used := st.used + {ch})
    case FirstNotify(ch) => Notified(st, ch).(joining := st.joining - {ch})
    case Unregister(ch) => st.(watchers := st.watchers - {ch})
  }

  /** The watcher's last message is what the getter would return now. */
  predicate UpToDate(st: State, ch: Chan)
    requires ch in st.watchers
  {
    ch in st.last && st.last[ch] == Get(st.reg, ch.kind, st.watchers[ch])
  }

  /** A notification of the watcher is still to come. */
  predicate Owed(st: State, ch: Chan)
  {
    || ch.kind in st.unsent || ch.kind in st.events || ch in st.joining
    || (st.round.Visiting? && ch in st.round.left)
  }

  ghost predicate Inv(st: State)
  {
    && st.watchers.Keys <= st.used && st.joining <= st.watchers.Keys
    && (forall ch :: ch in st.watchers ==> UpToDate(st, ch) || Owed(st, ch))
  }

  lemma StepKeepsInv(st: State, s: Step)
    requires Inv(st) && Enabled(st, s)
    ensures Inv(After(st, s))
  {
    var r := After(st, s);
    forall ch | ch in r.watchers ensures UpToDate(r, ch) || Owed(r, ch) {
      if ch in st.watchers {
        StillOwed(st, s, ch);
      }
    }
  }

  lemma StillOwed(st: State, s: Step, ch: Chan)
    requires Enabled(st, s) && ch in st.watchers && ch in After(st, s).watchers && (s.Store? ==> s.ch != ch)
    requires UpToDate(st, ch) || Owed(st, ch)
    ensures UpToDate(After(st, s), ch) || Owed(After(st, s), ch)
  {
    if s.Receive? {
      assert st.events == [st.events[0]] + st.events[1..];
    }
  }

  /** A run: every step was possible when it was taken. */
  ghost predicate IsRun(steps: seq<Step>, states: seq<State>)
  {
    && |states| == |steps| + 1 && states[0] == INIT
    && (forall i :: 0 <= i < |steps| ==> Enabled(states[i], steps[i]) && states[i + 1] == After(states[i], steps[i]))
  }

  lemma {:induction false} RunKeepsInv(steps: seq<Step>, states: seq<State>, n: nat)
    requires IsRun(steps, states) && n <= |steps|
    ensures Inv(states[n])
  {
    if n > 0 {
      RunKeepsInv(steps, states, n - 1);
      StepKeepsInv(states[n - 1], steps[n - 1]);
    }
  }

  predicate Quiescent(st: State)
  {
    st.unsent == multiset{} && st.events == [] && st.joining == {} && (st.round == Idle || st.round.left == {})
  }

  /** In every state of every run a watcher has seen the present configuration or is owed a notification; so when
      nothing is under way, every watcher has seen it. */
  lemma WatchersCatchUp(steps: seq<Step>, states: seq<State>, n: nat, ch: Chan)
    requires IsRun(steps, states) && n <= |steps| && ch in states[n].watchers
    ensures UpToDate(states[n], ch) || Owed(states[n], ch)
    ensures Quiescent(states[n]) ==> UpToDate(states[n], ch)
  {
    RunKeepsInv(steps, states, n);
  }

  // ---------- progress ----------

  /** Steps that only work off what is under way. */
  predicate Drains(s: Step)
  {
    s.Send? || s.Receive? || s.Visit? || s.Skip? || s.EndRound? || s.FirstNotify?
  }

  /** Work under way: an event still to be sent or received may cost a walk over all watchers. */
  ghost function Work(st: State): nat
  {
    var w := |st.watchers|;
    var round := if st.round.Visiting? then |st.round.left| + 1 else 0;
    |st.unsent| * (w + 3) + |st.events| * (w + 2) + round + |st.joining|
  }

  lemma SubsetSize(a: set<Chan>, b: set<Chan>)
    requires a <= b
    ensures |a| <= |b|
  {
    assert b == a + (b - a);
  }

  lemma SendCost(u: nat, e: nat, w: nat)
    requires u > 0
    ensures (u - 1) * (w + 3) + (e + 1) * (w + 2) + 1 == u * (w + 3) + e * (w + 2)
  {
  }

  lemma ReceiveCost(e: nat, w: nat)
    requires e > 0
    ensures (e - 1) * (w + 2) + (w + 2) == e * (w + 2)
  {
  }

  lemma SendDrains(st: State, k: Kind)
    requires Enabled(st, Send(k))
    ensures Work(After(st, Send(k))) < Work(st)
  {
    assert |After(st, Send(k)).unsent| == |st.unsent| - 1;
    SendCost(|st.unsent|, |st.events|, |st.watchers|);
  }

  lemma ReceiveDrains(st: State)
    requires Enabled(st, Receive)
    ensures Work(After(st, Receive)) < Work(st)
  {
    SubsetSize(After(st, Receive).round.left, st.watchers.Keys);
    ReceiveCost(|st.events|, |st.watchers|);
  }

  lemma RoundDrains(st: State, s: Step)
    requires Enabled(st, s) && (s.Visit? || s.Skip? || s.EndRound?)
    ensures Work(After(st, s)) < Work(st)
  {
    if !s.EndRound? {
      assert |After(st, s).round.left| == |st.round.left| - 1;
    }
  }

  lemma DrainingEnds(st: State, s: Step)
    requires Inv(st) && Enabled(st, s) && Drains(s)
    ensures Work(After(st, s)) < Work(st)
  {
    if s.Send? {
      SendDrains(st, s.k);
    } else if s.Receive? {
      ReceiveDrains(st);
    } else if s.FirstNotify? {
      assert |After(st, s).joining| == |st.joining| - 1;
    } else {
      RoundDrains(st, s);
    }
  }

  lemma SomethingCanBeDone(st: State) returns (s: Step)
    requires Inv(st) && !Quiescent(st)
    ensures Enabled(st, s) && Drains(s)
  {
    if st.joining != {} {
      var ch :| ch in st.joining;
      s := FirstNotify(ch);
    } else if st.round.Visiting? && st.round.left != {} {
      var ch :| ch in st.round.left;
      s := if ch in st.watchers then Visit(ch) else Skip(ch);
    } else if st.round.Visiting? {
      s := EndRound;
    } else if |st.events| > 0 {
      s := Receive;
    } else {
      var k :| k in st.unsent;
      s := Send(k);
    }
  }

  /** Taking the steps from `st` ends in `end`. */
  ghost predicate Reaches(st: State, steps: seq<Step>, end: State)
    decreases |steps|
  {
    if |steps| == 0 then st == end
    else Enabled(st, steps[0]) && Reaches(After(st, steps[0]), steps[1..], end)
  }

  lemma {:induction false} ReachesFurther(st: State, steps: seq<Step>, mid: State, s: Step)
    requires Reaches(st, steps, mid) && Enabled(mid, s)
    ensures Reaches(st, steps + [s], After(mid, s))
    decreases |steps|
  {
    if |steps| == 0 {
      assert Reaches(After(st, s), [], After(mid, s));
    } else {
      assert (steps + [s])[1..] == steps[1..] + [s];
      ReachesFurther(After(st, steps[0]), steps[1..], mid, s);
    }
  }

  lemma {:induction false} ReachesKeepsInv(st: State, steps: seq<Step>, end: State)
    requires Inv(st) && Reaches(st, steps, end)
    ensures Inv(end)
    decreases |steps|
  {
    if |steps| > 0 {
      StepKeepsInv(st, steps[0]);
      ReachesKeepsInv(After(st, steps[0]), steps[1..], end);
    }
  }

  /** From every state of every run, finitely many steps of the notifier and of calls under way reach a state in which
      every watcher has seen the present configuration. */
  lemma AlwaysDrains(st: State) returns (steps: seq<Step>, end: State)
    requires Inv(st)
    ensures Reaches(st, steps, end) && forall i :: 0 <= i < |steps| ==> Drains(steps[i])
    ensures Quiescent(end) && end.reg == st.reg && end.watchers == st.watchers
    ensures forall ch :: ch in end.watchers ==> UpToDate(end, ch)
    decreases Work(st)
  {
    if Quiescent(st) {
      return [], st;
    }
    var s := SomethingCanBeDone(st);
    DrainingEnds(st, s);
    StepKeepsInv(st, s);
    var rest;
    rest, end := AlwaysDrains(After(st, s));
    steps := [s] + rest;
    assert steps[1..] == rest;
  }

  // ---------- the notifier ----------

  /** The watched resource as passed in: no value at all, or a possibly nil pointer to a resource of some kind. */
  datatype Target = NoTarget | Typed(kind: Kind, resource: Option<Resource>)

  /** The channel as passed in: nil, of a type that is no watcher's, or a watcher's channel. */
  datatype ChanArg = NilChan | ForeignChan | Watched(ch: Chan)

  class WatcherNotifier {
    const registry: ConfigurationRegistry
    var watchers: map<Chan, Option<Resource>>
    var last: map<Chan, seq<Resource>>

    constructor (registry: ConfigurationRegistry)
      ensures this.registry == registry && watchers == map[] && last == map[]
      ensures registry.resources == map[] && registry.events == [] ==> Current({}) == INIT
    {
      this.registry := registry;
      watchers, last := map[], map[];
    }

    /** The state between calls; `used` are the channels registered so far. */
    ghost function Current(used: set<Chan>): State
      reads this, registry
    {
      State(registry.resources, multiset{}, registry.events, Idle, watchers, {}, used, last)
    }

    /** A watcher is stored and notified when target and channel are of one kind. Without a target the call succeeds
        and registers nothing. */
    method RegisterWatcher(toWatch: Target, ch: ChanArg, ghost used: set<Chan>) returns (ok: bool)
      modifies this
      ensures ok <==> ch.Watched? && (toWatch == NoTarget || toWatch.kind == ch.ch.kind)
      ensures if ok && toWatch.Typed?
              then watchers == old(watchers)[ch.ch := toWatch.resource]
                   && last == old(last)[ch.ch := Get(registry.resources, ch.ch.kind, toWatch.resource)]
              else watchers == old(watchers) && last == old(last)
      ensures ok && toWatch.Typed? && ch.ch !in used ==>
        Reaches(old(Current(used)), [Store(ch.ch, toWatch.resource), FirstNotify(ch.ch)], Current(used + {ch.ch}))
    {
      if !ch.Watched? {
        return false;
      }
      if toWatch.Typed? && toWatch.kind != ch.ch.kind {
        return false;
      }
      if toWatch.Typed? {
        if ch.ch !in used {
          StoredAndNotified(Current(used), ch.ch, toWatch.resource);
        }
        watchers := watchers[ch.ch := toWatch.resource];
        Notify(ch.ch);
      }
      ok := true;
    }

    method Notify(ch: Chan)
      requires ch in watchers
      modifies this`last
      ensures last == old(last)[ch := Get(registry.resources, ch.kind, watchers[ch])]
    {
      var resources := registry.GetResources(ch.kind, watchers[ch]);
      last := last[ch := resources];
    }

    method UnregisterWatcher(ch: ChanArg, ghost used: set<Chan>)
      modifies this`watchers
      ensures watchers == if ch.Watched? then old(watchers) - {ch.ch} else old(watchers)
      ensures ch.Watched? ==> Reaches(old(Current(used)), [Unregister(ch.ch)], Current(used))
    {
      if ch.Watched? {
        watchers := watchers - {ch.ch};
      }
    }

    /** All watchers of the kind are notified, in any order, and no other: in the protocol's terms, a walk visits each
        of them once. */
    method NotifyWatchers(k: Kind, ghost st: State) returns (ghost visits: seq<Step>)
      requires st.reg == registry.resources && st.watchers == watchers && st.last == last
      requires st.round == Visiting(k, OfKind(watchers, k))
      modifies this`last
      ensures last == Told(old(last), registry.resources, watchers, OfKind(watchers, k))
      ensures Reaches(st, visits, st.(last := last, round := Visiting(k, {})))
      ensures forall i :: 0 <= i < |visits| ==> visits[i].Visit?
    {
      visits := [];
      var left := OfKind(watchers, k);
      while left != {}
        invariant left <= OfKind(watchers, k)
        invariant Reaches(st, visits, st.(last := last, round := Visiting(k, left)))
        invariant forall i :: 0 <= i < |visits| ==> visits[i].Visit?
      {
        var ch :| ch in left;
        ReachesFurther(st, visits, st.(last := last, round := Visiting(k, left)), Visit(ch));
        visits := visits + [Visit(ch)];
        Notify(ch);
        left := left - {ch};
      }
      VisitsTell(st, visits, st.(last := last, round := Visiting(k, {})));
      assert OfKind(watchers, k) - {} == OfKind(watchers, k);
    }

    /** One turn of the notifier's loop: an event is received, a round is walked and ended. */
    method HandleEvent(ghost used: set<Chan>) returns (ghost steps: seq<Step>)
      requires |registry.events| > 0
      modifies this`last, registry`events
      ensures registry.events == old(registry.events)[1..]
      ensures Reaches(old(Current(used)), steps, Current(used)) && forall i :: 0 <= i < |steps| ==> Drains(steps[i])
    {
      ghost var before := Current(used);
      var k := registry.events[0];
      registry.events := registry.events[1..];
      ghost var walk := After(before, Receive);
      ghost var visits := NotifyWatchers(k, walk);
      ghost var walked := walk.(last := last, round := Visiting(k, {}));
      ReachesFurther(walk, visits, walked, EndRound);
      steps := [Receive] + (visits + [EndRound]);
      assert steps[1..] == visits + [EndRound];
    }

    /** The loop until no event is left: every watcher has then seen the present configuration. */
    method HandleEvents(ghost used: set<Chan>)
      requires Inv(Current(used))
      modifies this`last, registry`events
      ensures registry.events == [] && Inv(Current(used))
      ensures forall ch :: ch in watchers ==> ch in last && last[ch] == Get(registry.resources, ch.kind, watchers[ch])
    {
      while registry.events != []
        invariant Inv(Current(used))
        decreases |registry.events|
      {
        ghost var before := Current(used);
        ghost var steps := HandleEvent(used);
        ReachesKeepsInv(before, steps, Current(used));
      }
      assert forall ch :: ch in watchers ==> UpToDate(Current(used), ch);
    }
  }

  function OfKind(watchers: map<Chan, Option<Resource>>, k: Kind): set<Chan>
  {
    set ch | ch in watchers && ch.kind == k
  }

  /** The last messages after some watchers have been sent what their getters return. */
  function Told(last: map<Chan, seq<Resource>>, reg: Registry, watchers: map<Chan, Option<Resource>>, told: set<Chan>):
    (r: map<Chan, seq<Resource>>)
    requires told <= watchers.Keys
  {
    map ch | ch in last.Keys + told :: if ch in told then Get(reg, ch.kind, watchers[ch]) else last[ch]
  }

  lemma ToldFirst(last: map<Chan, seq<Resource>>, reg: Registry, watchers: map<Chan, Option<Resource>>,
                  told: set<Chan>, ch: Chan)
    requires told <= watchers.Keys && ch in watchers
    ensures Told(last[ch := Get(reg, ch.kind, watchers[ch])], reg, watchers, told) ==
            Told(last, reg, watchers, told + {ch})
  {
  }

  /** Visits send exactly to the watchers they take off the walk. */
  lemma {:induction false} VisitsTell(st: State, visits: seq<Step>, end: State)
    requires Reaches(st, visits, end) && (forall i :: 0 <= i < |visits| ==> visits[i].Visit?)
    requires st.round.Visiting? && st.round.left <= st.watchers.Keys
    ensures end.round.Visiting? && end.round.left <= st.round.left
    ensures end.last == Told(st.last, st.reg, st.watchers, st.round.left - end.round.left)
    decreases |visits|
  {
    if |visits| == 0 {
      assert st.round.left - end.round.left == {};
    } else {
      var ch, next := visits[0].ch, After(st, visits[0]);
      VisitsTell(next, visits[1..], end);
      ToldFirst(st.last, st.reg, st.watchers, next.round.left - end.round.left, ch);
      assert (next.round.left - end.round.left) + {ch} == st.round.left - end.round.left;
    }
  }

  /** A setter assigns and, when the channel has room, sends. */
  lemma SetterSteps(st: State, k: Kind, value: seq<Resource>)
    requires |st.events| < EVENT_CAPACITY
    ensures Reaches(st, [Assign(k, value), Send(k)], st.(reg := st.reg[k := value], events := st.events + [k]))
  {
    var mid := After(st, Assign(k, value));
    assert mid.unsent - multiset{k} == st.unsent;
    assert Reaches(After(mid, Send(k)), [], st.(reg := st.reg[k := value], events := st.events + [k]));
    assert [Assign(k, value), Send(k)][1..] == [Send(k)] && [Send(k)][1..] == [];
  }

  lemma StoredAndNotified(st: State, ch: Chan, toWatch: Option<Resource>)
    requires ch !in st.used && st.joining == {}
    ensures Reaches(st, [Store(ch, toWatch), FirstNotify(ch)],
                    st.(watchers := st.watchers[ch := toWatch], used := st.used + {ch},
                        last := st.last[ch := Get(st.reg, ch.kind, toWatch)]))
  {
    var mid := After(st, Store(ch, toWatch));
    assert mid.joining - {ch} == {};
    var end := After(mid, FirstNotify(ch));
    assert Reaches(end, [], end);
    assert [Store(ch, toWatch), FirstNotify(ch)][1..] == [FirstNotify(ch)] && [FirstNotify(ch)][1..] == [];
  }
}
