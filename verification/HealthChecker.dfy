/** Probe services whose status is the aggregate of their subservices (pkg/health/checker.go). Maps are walked in
    any order. */
module HealthChecker {

  datatype Status = UNKNOWN | SERVING | NOT_SERVING | SERVICE_UNKNOWN

  const PROBES: set<string> := {"Startup", "Readiness", "Liveness"}

  /** Subservices by probe, probes by subservice, and the status of the services the health server knows. */
  datatype State = State(subs: map<string, set<string>>, probes: map<string, set<string>>, status: map<string, Status>)

  predicate Serving(status: map<string, Status>, s: string)
  {
    s in status && status[s] == SERVING
  }

  predicate AllServing(status: map<string, Status>, ss: set<string>)
  {
    forall s :: s in ss ==> Serving(status, s)
  }

  function SubsOf(st: State, p: string): set<string>
  {
    if p in st.subs then st.subs[p] else {}
  }

  function ProbesOf(st: State, s: string): set<string>
  {
    if s in st.probes then st.probes[s] else {}
  }

  /** The two index maps are inverse relations between probes and subservices, all known to the health server. */
  ghost predicate Indexed(st: State)
  {
    && st.subs.Keys <= PROBES && (forall s :: s in st.probes ==> s !in PROBES)
    && (forall p, s :: s in SubsOf(st, p) <==> p in ProbesOf(st, s))
    && (forall p, s :: s in SubsOf(st, p) ==> s in st.status)
  }

  /** A probe with subservices is SERVING if all of them are, and NOT_SERVING otherwise. */
  ghost predicate Aggregated(st: State, p: string)
  {
    SubsOf(st, p) != {} ==>
      p in st.status && st.status[p] == if AllServing(st.status, SubsOf(st, p)) then SERVING else NOT_SERVING
  }

  function Verdict(ok: bool): Status { if ok then SERVING else NOT_SERVING }

  // ---------- registration ----------

  function Linked(probes: map<string, set<string>>, p: string, services: set<string>): map<string, set<string>>
  {
    map s | s in probes.Keys + services ::
      (if s in probes then probes[s] else {}) + (if s in services then {p} else {})
  }

  /** Services the health server does not know start as NOT_SERVING. */
  function Introduced(status: map<string, Status>, services: set<string>): map<string, Status>
  {
    map s | s in status.Keys + services :: if s in status then status[s] else NOT_SERVING
  }

  /** The probe's first status looks only at the services of this call. */
  function Registered(st: State, p: string, services: set<string>): State
  {
    State(st.subs[p := SubsOf(st, p) + services],
          Linked(st.probes, p, services),
          Introduced(st.status, services)[p := Verdict(AllServing(st.status, services))])
  }

  // ---------- a status change ----------

  function StatusSet(st: State, service: string, v: Status): State
  {
    if service in PROBES then
      if SubsOf(st, service) != {} then st else st.(status := st.status[service := v])
    else
      var status := st.status[service := v];
      var touched := ProbesOf(st, service) * st.subs.Keys;
      st.(status := map s | s in status.Keys + touched ::
                      if s in touched then Verdict(AllServing(status, st.subs[s])) else status[s])
  }

  lemma StatusSetKeeps(st: State, service: string, v: Status)
    requires Indexed(st)
    ensures Indexed(StatusSet(st, service, v))
    ensures forall p :: Aggregated(st, p) ==> Aggregated(StatusSet(st, service, v), p)
    ensures service !in PROBES ==> forall p :: p in ProbesOf(st, service) ==> Aggregated(StatusSet(st, service, v), p)
  {
    var r := StatusSet(st, service, v);
    assert forall p :: SubsOf(r, p) == SubsOf(st, p);
    assert forall s :: ProbesOf(r, s) == ProbesOf(st, s);
    forall p ensures Aggregated(st, p) || (service !in PROBES && p in ProbesOf(st, service)) ==> Aggregated(r, p) {
      if SubsOf(st, p) != {} {
        SubsAreNoProbes(st, p);
        assert AllServing(r.status, SubsOf(r, p)) <==>
               AllServing(if service in PROBES then st.status else st.status[service := v], SubsOf(st, p));
      }
    }
  }

  /** A status change sets the status of the service, unless it is a probe with subservices; of the others only probes
      of the service change. */
  lemma StatusSetSets(st: State, service: string, v: Status, s: string)
    ensures var r := StatusSet(st, service, v);
            && r.subs == st.subs && r.probes == st.probes
            && (service in PROBES && SubsOf(st, service) != {} ==> r == st)
            && (service in PROBES && SubsOf(st, service) == {} ==> service in r.status && r.status[service] == v)
            && (service !in PROBES && service !in ProbesOf(st, service) ==>
                  service in r.status && r.status[service] == v)
            && (s != service && s !in ProbesOf(st, service) ==>
                  (s in r.status <==> s in st.status) && (s in r.status ==> r.status[s] == st.status[s]))
  {
  }

  /** Services named for the first time are NOT_SERVING, others keep their status. */
  lemma RegisteredServices(st: State, p: string, services: set<string>, s: string)
    requires s != p
    ensures var r := Registered(st, p, services);
            && (s in st.status ==> s in r.status && r.status[s] == st.status[s])
            && (s in services && s !in st.status ==> s in r.status && r.status[s] == NOT_SERVING)
            && (s in r.status ==> s in st.status || s in services)
  {
  }

  lemma SubsAreNoProbes(st: State, p: string)
    requires Indexed(st)
    ensures forall s :: s in SubsOf(st, p) ==> s !in PROBES
    ensures SubsOf(st, p) != {} ==> p in PROBES
  {
    forall s | s in SubsOf(st, p) ensures s !in PROBES {
      assert p in ProbesOf(st, s);
    }
  }

  lemma RegisteredIndex(st: State, p: string, services: set<string>, q: string, s: string)
    ensures s in SubsOf(Registered(st, p, services), q) <==> (p == q && s in services) || s in SubsOf(st, q)
    ensures q in ProbesOf(Registered(st, p, services), s) <==> (p == q && s in services) || q in ProbesOf(st, s)
  {
  }

  lemma RegisteredIndexed(st: State, p: string, services: set<string>)
    requires Indexed(st) && p in PROBES && services !! PROBES
    ensures Indexed(Registered(st, p, services))
  {
    var r := Registered(st, p, services);
    forall q, s ensures s in SubsOf(r, q) <==> q in ProbesOf(r, s) {
      RegisteredIndex(st, p, services, q, s);
    }
    forall q, s ensures s in SubsOf(r, q) ==> s in r.status {
      RegisteredIndex(st, p, services, q, s);
    }
  }

  /** Registration does not change whether services other than the probe are serving. */
  lemma RegisteredStatus(st: State, p: string, services: set<string>, ss: set<string>)
    requires p !in ss
    ensures AllServing(Registered(st, p, services).status, ss) <==> AllServing(st.status, ss)
  {
    var r := Registered(st, p, services);
    forall s | s in ss ensures Serving(r.status, s) <==> Serving(st.status, s) {}
  }

  lemma RegisteredOther(st: State, p: string, services: set<string>, q: string)
    requires Indexed(st) && p in PROBES && q != p && Aggregated(st, q)
    ensures Aggregated(Registered(st, p, services), q)
  {
    SubsAreNoProbes(st, q);
    RegisteredStatus(st, p, services, SubsOf(st, q));
  }

  /** Registering keeps the index and the other probes; the probe itself is right afterwards if and only if one of
      the services named in the call is not serving or all subservices it had before are. */
  lemma RegisteredKeeps(st: State, p: string, services: set<string>)
    requires Indexed(st) && p in PROBES && services !! PROBES
    ensures Indexed(Registered(st, p, services))
    ensures forall q :: q != p && Aggregated(st, q) ==> Aggregated(Registered(st, p, services), q)
    ensures Aggregated(Registered(st, p, services), p) <==>
            !AllServing(st.status, services) || AllServing(st.status, SubsOf(st, p))
  {
    RegisteredIndexed(st, p, services);
    forall q | q != p && Aggregated(st, q) ensures Aggregated(Registered(st, p, services), q) {
      RegisteredOther(st, p, services, q);
    }
    SubsAreNoProbes(st, p);
    RegisteredStatus(st, p, services, services + SubsOf(st, p));
    RegisteredStatus(st, p, services, services);
  }

  /** A probe registered with a service that is not serving, then with one that is, shows SERVING. */
  lemma RegisteredTwiceIsWrong()
    ensures var st := Registered(State(map[], map[], map["up" := SERVING]), "Readiness", {"down"});
            var r := Registered(st, "Readiness", {"up"});
            && Indexed(st) && Aggregated(st, "Readiness")
            && r.status["Readiness"] == SERVING && !Aggregated(r, "Readiness")
  {
    var none := State(map[], map[], map["up" := SERVING]);
    var st := Registered(none, "Readiness", {"down"});
    assert "down"[0] == 'd' && "up"[0] == 'u' && "Readiness"[0] == 'R' && "Startup"[0] == 'S' && "Liveness"[0] == 'L';
    RegisteredKeeps(none, "Readiness", {"down"});
    RegisteredKeeps(st, "Readiness", {"up"});
    assert "down" in SubsOf(st, "Readiness") && !Serving(st.status, "down");
    assert AllServing(st.status, {"up"});
  }

  // ---------- every run ----------

  datatype Op = Register(probe: string, services: set<string>) | SetStatus(service: string, status: Status)

  function After(st: State, op: Op): State
  {
    match op
    case Register(p, services) => Registered(st, p, services)
    case SetStatus(s, v) => StatusSet(st, s, v)
  }

  function Run(status: map<string, Status>, ops: seq<Op>): State
  {
    if |ops| == 0 then State(map[], map[], status) else After(Run(status, ops[..|ops| - 1]), ops[|ops| - 1])
  }

  /** Probes are the three probe services, their subservices are other services, and each probe registers once. */
  ghost predicate Proper(ops: seq<Op>)
  {
    && (forall i :: 0 <= i < |ops| && ops[i].Register? ==> ops[i].probe in PROBES && ops[i].services !! PROBES)
    && (forall i, j :: 0 <= i < j < |ops| && ops[i].Register? && ops[j].Register? ==> ops[i].probe != ops[j].probe)
  }

  lemma {:induction false} RegisteredBefore(status: map<string, Status>, ops: seq<Op>, p: string)
    requires p in Run(status, ops).subs
    ensures exists i :: 0 <= i < |ops| && ops[i].Register? && ops[i].probe == p
  {
    var n := |ops| - 1;
    if n >= 0 && !(ops[n].Register? && ops[n].probe == p) {
      RegisteredBefore(status, ops[..n], p);
      var i :| 0 <= i < n && ops[..n][i].Register? && ops[..n][i].probe == p;
      assert ops[i].Register? && ops[i].probe == p;
    }
  }

  /** In every run the index maps stay inverse to each other and every probe shows the aggregate of its subservices. */
  lemma {:induction false} RunAggregates(status: map<string, Status>, ops: seq<Op>)
    requires Proper(ops)
    ensures Indexed(Run(status, ops))
    ensures forall p :: Aggregated(Run(status, ops), p)
  {
    if |ops| > 0 {
      var n := |ops| - 1;
      RunAggregates(status, ops[..n]);
      var st := Run(status, ops[..n]);
      match ops[n]
      case SetStatus(s, v) =>
        StatusSetKeeps(st, s, v);
      case Register(p, services) =>
        if p in st.subs {
          RegisteredBefore(status, ops[..n], p);
          assert false;
        }
        RegisteredKeeps(st, p, services);
    }
  }

  // ---------- the checker ----------

  ghost function SetOf(ss: seq<string>): set<string> { set s | s in ss }

  lemma SetOfOneMore(ss: seq<string>, i: nat)
    requires i < |ss|
    ensures SetOf(ss[..i + 1]) == SetOf(ss[..i]) + {ss[i]}
  {
    assert ss[..i + 1] == ss[..i] + [ss[i]];
  }

  lemma LinkedOneMore(probes: map<string, set<string>>, p: string, done: set<string>, s: string)
    ensures Linked(probes, p, done + {s}) ==
            var now := Linked(probes, p, done);
            now[s := (if s in now then now[s] else {}) + {p}]
  {
    var now, next := Linked(probes, p, done), Linked(probes, p, done + {s});
    var want := now[s := (if s in now then now[s] else {}) + {p}];
    assert next.Keys == want.Keys;
    forall k | k in next ensures next[k] == want[k] {}
  }

  lemma IntroducedOneMore(status: map<string, Status>, done: set<string>, s: string)
    ensures Introduced(status, done + {s}) ==
            var now := Introduced(status, done);
            if s in now then now else now[s := NOT_SERVING]
    ensures Serving(Introduced(status, done), s) <==> Serving(status, s)
    ensures AllServing(status, done + {s}) <==> AllServing(status, done) && Serving(status, s)
  {
  }

  lemma RegisteredNone(st: State, p: string)
    ensures Linked(st.probes, p, {}) == st.probes && Introduced(st.status, {}) == st.status
    ensures SubsOf(st, p) + {} == SubsOf(st, p)
  {
    forall s | s in st.probes ensures Linked(st.probes, p, {})[s] == st.probes[s] {}
  }

  class Checker {
    var probeToSubServices: map<string, set<string>>
    var subServiceToProbes: map<string, set<string>>
    var status: map<string, Status>

    constructor (status: map<string, Status>)
      ensures Current() == State(map[], map[], status)
    {
      probeToSubServices, subServiceToProbes := map[], map[];
      this.status := status;
    }

    function Current(): State
      reads this
    {
      State(probeToSubServices, subServiceToProbes, status)
    }

    /** The services in `done` are registered; the probe's own status is still to be set. */
    ghost predicate Partly(st: State, probe: string, done: set<string>, initial: Status)
      reads this
    {
      && probeToSubServices == st.subs[probe := SubsOf(st, probe) + done]
      && subServiceToProbes == Linked(st.probes, probe, done)
      && status == Introduced(st.status, done)
      && initial == Verdict(AllServing(st.status, done))
    }

    method RegisterServices(probe: string, services: seq<string>)
      modifies this
      ensures Current() == Registered(old(Current()), probe, SetOf(services))
    {
      ghost var st := Current();
      if probe !in probeToSubServices {
        probeToSubServices := probeToSubServices[probe := {}];
      }
      var initial := SERVING;
      assert SetOf(services[..0]) == {};
      RegisteredNone(st, probe);
      for i := 0 to |services|
        invariant Partly(st, probe, SetOf(services[..i]), initial)
      {
        SetOfOneMore(services, i);
        initial := RegisterService(probe, services[i], initial, st, SetOf(services[..i]));
      }
      assert services[..|services|] == services;
      status := status[probe := initial];
    }

    method RegisterService(probe: string, s: string, initial: Status, ghost st: State, ghost done: set<string>)
      returns (r: Status)
      requires Partly(st, probe, done, initial)
      modifies this
      ensures Partly(st, probe, done + {s}, r)
    {
      LinkedOneMore(st.probes, probe, done, s);
      IntroducedOneMore(st.status, done, s);
      assert SubsOf(st, probe) + done + {s} == SubsOf(st, probe) + (done + {s});
      probeToSubServices := probeToSubServices[probe := probeToSubServices[probe] + {s}];
      var probes := if s in subServiceToProbes then subServiceToProbes[s] else {};
      subServiceToProbes := subServiceToProbes[s := probes + {probe}];
      var serving := Introduce(s);
      r := if serving then initial else NOT_SERVING;
    }

    /** A service the health server does not know becomes NOT_SERVING. */
    method Introduce(s: string) returns (serving: bool)
      modifies this`status
      ensures status == if s in old(status) then old(status) else old(status)[s := NOT_SERVING]
      ensures serving == Serving(old(status), s)
    {
      serving := s in status && status[s] == SERVING;
      if s !in status {
        status := status[s := NOT_SERVING];
      }
    }

    /** The aggregate over a probe's subservices. */
    method Aggregate(ss: set<string>) returns (v: Status)
      ensures v == Verdict(AllServing(status, ss))
    {
      var left := ss;
      while left != {}
        invariant left <= ss && forall s :: s in ss && s !in left ==> Serving(status, s)
      {
        var s :| s in left;
        if s !in status || status[s] != SERVING {
          return NOT_SERVING;
        }
        left := left - {s};
      }
      v := SERVING;
    }

    /** A service's probes are updated in some order; with the indexes in place the order does not matter. */
    method SetServingStatus(service: string, v: Status) returns (ghost order: seq<string>)
      modifies this`status
      ensures service !in PROBES ==> IsWalk(order, ProbesOf(old(Current()), service) * old(probeToSubServices).Keys)
      ensures service !in PROBES ==> Current() == Walked(old(Current()).(status := old(status)[service := v]), v, order)
      ensures service in PROBES || old(Indexed(Current())) ==> Current() == StatusSet(old(Current()), service, v)
    {
      order := [];
      if service in PROBES {
        if service in probeToSubServices && probeToSubServices[service] != {} {
          return;
        }
        status := status[service := v];
        return;
      }
      ghost var st := Current();
      status := status[service := v];
      ghost var first := Current();
      var left := if service in subServiceToProbes then subServiceToProbes[service] else {};
      while left != {}
        invariant left <= ProbesOf(st, service)
        invariant IsWalk(order, (ProbesOf(st, service) - left) * st.subs.Keys) && Current() == Walked(first, v, order)
      {
        var probe :| probe in left;
        if probe in probeToSubServices {
          var probeStatus := NOT_SERVING;
          if v == SERVING {
            probeStatus := Aggregate(probeToSubServices[probe]);
          }
          WalkOneMore(order, (ProbesOf(st, service) - left) * st.subs.Keys, probe);
          assert (order + [probe])[..|order|] == order;
          status := status[probe := probeStatus];
          order := order + [probe];
        }
        left := left - {probe};
        assert (ProbesOf(st, service) - left) * st.subs.Keys == SetOf(order);
      }
      if Indexed(st) {
        WalkIsStatusSet(st, service, v, order);
      }
    }
  }

  // ---------- any order of the probes ----------

  ghost predicate IsWalk(order: seq<string>, probes: set<string>)
  {
    SetOf(order) == probes && forall i, j :: 0 <= i < j < |order| ==> order[i] != order[j]
  }

  lemma WalkOneMore(order: seq<string>, probes: set<string>, p: string)
    requires IsWalk(order, probes) && p !in probes
    ensures IsWalk(order + [p], probes + {p})
  {
    assert forall x :: x in order + [p] <==> x in order || x == p;
    assert forall i :: 0 <= i < |order| ==> order[i] in SetOf(order);
  }

  /** The probes are updated one after another; an aggregate reads the statuses of that moment. */
  ghost function Walked(st: State, v: Status, order: seq<string>): State
  {
    if |order| == 0 then st
    else
      var prev, p := Walked(st, v, order[..|order| - 1]), order[|order| - 1];
      prev.(status := prev.status[p := Verdict(v == SERVING && AllServing(prev.status, SubsOf(prev, p)))])
  }

  /** Statuses of probes set on the way are not read by later aggregates. */
  lemma {:induction false} WalkReads(st: State, service: string, v: Status, order: seq<string>)
    requires Indexed(st) && service !in PROBES && SetOf(order) <= ProbesOf(st, service) * st.subs.Keys
    ensures var first := st.(status := st.status[service := v]);
            var r := Walked(first, v, order);
            && r.subs == st.subs && r.probes == st.probes && r.status.Keys == first.status.Keys + SetOf(order)
            && (forall s :: s in r.status ==>
                  r.status[s] == if s in order then Verdict(AllServing(first.status, st.subs[s])) else first.status[s])
  {
    if |order| > 0 {
      var n := |order| - 1;
      var p, first := order[n], st.(status := st.status[service := v]);
      assert order == order[..n] + [p];
      assert SetOf(order) == SetOf(order[..n]) + {p};
      WalkReads(st, service, v, order[..n]);
      var prev := Walked(first, v, order[..n]);
      AggregateReadsSubs(st, service, v, p, first.status, prev.status, SetOf(order[..n]));
    }
  }

  lemma WalkIsStatusSet(st: State, service: string, v: Status, order: seq<string>)
    requires Indexed(st) && service !in PROBES && IsWalk(order, ProbesOf(st, service) * st.subs.Keys)
    ensures Walked(st.(status := st.status[service := v]), v, order) == StatusSet(st, service, v)
  {
    WalkReads(st, service, v, order);
    assert forall s :: s in order <==> s in SetOf(order);
  }

  lemma AggregateReadsSubs(st: State, service: string, v: Status, p: string, first: map<string, Status>,
                           status: map<string, Status>, done: set<string>)
    requires Indexed(st) && service !in PROBES && p in ProbesOf(st, service) && p in st.subs
    requires first == st.status[service := v] && done <= ProbesOf(st, service)
    requires status.Keys == first.Keys + done && forall s :: s in status && s !in done ==> status[s] == first[s]
    ensures AllServing(status, st.subs[p]) <==> AllServing(first, st.subs[p])
    ensures v != SERVING ==> !AllServing(first, st.subs[p])
  {
    SubsAreNoProbes(st, p);
    forall q | q in done ensures q in PROBES {
      assert service in SubsOf(st, q);
    }
    assert service in SubsOf(st, p);
    forall s | s in st.subs[p] ensures Serving(status, s) <==> Serving(first, s) {}
  }
}
