/** The update-sync-group lock of the conduit controller (pkg/controllers/conduit/conduit_controller.go). Each
    Reconcile and each deletion is one atomic step; what the API server answers is part of the step. */
module UpdateLocks {

  /** A conduit's namespaced name; it contains a slash, so it is never empty. */
  type ConduitKey = s: string | s != "" witness "/"

  /** Groups recorded for conduits, and lock owners by group. */
  datatype State = State(groups: map<string, string>, owners: map<string, string>)

  /** Reconcile: `found` when the conduit exists, `group` its annotation ("" without one), `prepared` when trench,
      owner reference and proxy were obtained, `isUpdate` when the proxy daemon set is to be updated, `ready` what
      the readiness check after the push would say. */
  datatype Step =
    | Reconcile(conduit: ConduitKey, found: bool, group: string, prepared: bool, isUpdate: bool, ready: bool)
    | Deletion(conduit: ConduitKey)

  // ---------- the operations on values ----------

  function ReleaseLock(st: State, group: string, owner: string): State
  {
    if group in st.owners && st.owners[group] == owner then st.(owners := st.owners - {group}) else st
  }

  function ManageGroupChange(st: State, group: string, c: string): State
  {
    var known := c in st.groups;
    if known && st.groups[c] == group then st
    else if !known && group == "" then st
    else
      var st1 := if known then ReleaseLock(st, st.groups[c], c) else st;
      st1.(groups := if group != "" then st1.groups[c := group] else st1.groups - {c})
  }

  predicate CanAcquire(st: State, group: string, c: string)
  {
    group in st.owners ==> st.owners[group] == "" || st.owners[group] == c
  }

  /** A lock that exists is not touched. */
  function AcquireLock(st: State, group: string, c: string): State
  {
    if group in st.owners then st else st.(owners := st.owners[group := c])
  }

  predicate HasLock(st: State, group: string, c: string)
  {
    group in st.owners && st.owners[group] != "" && st.owners[group] == c
  }

  /** The state after a step. */
  function After(st: State, s: Step): State
  {
    match s
    case Deletion(c) =>
      if c in st.groups then ReleaseLock(st.(groups := st.groups - {c}), st.groups[c], c) else st
    case Reconcile(c, found, group, prepared, isUpdate, ready) =>
      if !found then st
      else
        var st1 := ManageGroupChange(st, group, c);
        if !prepared || group == "" then st1
        else if isUpdate && !CanAcquire(st1, group, c) then st1
        else
          var st2 := if isUpdate then AcquireLock(st1, group, c) else st1;
          if HasLock(st2, group, c) && ready then ReleaseLock(st2, group, c) else st2
  }

  /** The step sends an update of the conduit's proxy to the API server. */
  predicate Pushes(st: State, s: Step)
  {
    && s.Reconcile? && s.found && s.prepared && s.isUpdate
    && (s.group != "" ==> CanAcquire(ManageGroupChange(st, s.group, s.conduit), s.group, s.conduit))
  }

  ghost function RunTo(steps: seq<Step>, n: nat): State
    requires n <= |steps|
  {
    if n == 0 then State(map[], map[]) else After(RunTo(steps, n - 1), steps[n - 1])
  }

  // ---------- every reachable state ----------

  /** A held lock has an owner, which is recorded as a member of the group. */
  ghost predicate OwnersAreMembers(st: State)
  {
    && (forall g :: g in st.owners ==> st.owners[g] != "" && st.owners[g] in st.groups && st.groups[st.owners[g]] == g)
    && (forall c :: c in st.groups ==> st.groups[c] != "")
  }

  lemma ReleaseKeepsMembers(st: State, g: string, c: string)
    requires OwnersAreMembers(st)
    ensures OwnersAreMembers(ReleaseLock(st, g, c))
  {
  }

  /** Whatever a conduit's group was, it holds no lock of another group afterwards. */
  lemma ManageKeepsMembers(st: State, g: string, c: string)
    requires OwnersAreMembers(st)
    ensures OwnersAreMembers(ManageGroupChange(st, g, c))
    ensures g != "" ==> c in ManageGroupChange(st, g, c).groups && ManageGroupChange(st, g, c).groups[c] == g
  {
    if c in st.groups {
      ReleaseKeepsMembers(st, st.groups[c], c);
    }
  }

  lemma DeletionKeepsMembers(st: State, c: ConduitKey)
    requires OwnersAreMembers(st)
    ensures OwnersAreMembers(After(st, Deletion(c)))
  {
  }

  lemma AcquireKeepsMembers(st: State, g: string, c: ConduitKey)
    requires OwnersAreMembers(st) && c in st.groups && st.groups[c] == g
    ensures OwnersAreMembers(AcquireLock(st, g, c))
  {
  }

  lemma StepKeepsMembers(st: State, s: Step)
    requires OwnersAreMembers(st)
    ensures OwnersAreMembers(After(st, s))
  {
    if s.Deletion? {
      DeletionKeepsMembers(st, s.conduit);
    } else if s.found {
      ManageKeepsMembers(st, s.group, s.conduit);
      var st1 := ManageGroupChange(st, s.group, s.conduit);
      if s.group != "" {
        AcquireKeepsMembers(st1, s.group, s.conduit);
        ReleaseKeepsMembers(AcquireLock(st1, s.group, s.conduit), s.group, s.conduit);
        ReleaseKeepsMembers(st1, s.group, s.conduit);
      }
    }
  }

  lemma {:induction false} ReachableOwnersAreMembers(steps: seq<Step>, n: nat)
    requires n <= |steps|
    ensures OwnersAreMembers(RunTo(steps, n))
  {
    if n > 0 {
      ReachableOwnersAreMembers(steps, n - 1);
      StepKeepsMembers(RunTo(steps, n - 1), steps[n - 1]);
    }
  }

  /** In every reachable state a conduit holds at most one lock, and after its deletion or its move to another group
      (or none) it holds none of the old ones. */
  lemma NoLockLeftBehind(steps: seq<Step>, n: nat, g: string, h: string)
    requires 0 < n <= |steps|
    ensures var o := RunTo(steps, n).owners;
            && (g in o && h in o && o[g] == o[h] ==> g == h)
            && (g in o && steps[n - 1].Deletion? ==> o[g] != steps[n - 1].conduit)
            && (g in o && steps[n - 1].Reconcile? && steps[n - 1].found && steps[n - 1].group != g ==>
                o[g] != steps[n - 1].conduit)
  {
    ReachableOwnersAreMembers(steps, n);
    ReachableOwnersAreMembers(steps, n - 1);
  }

  // ---------- mutual exclusion ----------

  /** The step ends the conduit's turn in the group: it is seen ready, is found in another group, or is deleted. */
  predicate EndsTurn(s: Step, c: string, g: string)
  {
    && s.conduit == c
    && (s.Deletion? || (s.found && (s.group != g || (s.prepared && s.ready))))
  }

  lemma HolderStays(st: State, s: Step, c: ConduitKey, g: string)
    requires g in st.owners && st.owners[g] == c && g != "" && !EndsTurn(s, c, g)
    ensures g in After(st, s).owners && After(st, s).owners[g] == c
    ensures Pushes(st, s) && s.group == g ==> s.conduit == c
  {
  }

  lemma PusherHolds(st: State, s: Step)
    requires OwnersAreMembers(st) && Pushes(st, s) && s.group != "" && !s.ready
    ensures s.group in After(st, s).owners && After(st, s).owners[s.group] == s.conduit
  {
    ManageKeepsMembers(st, s.group, s.conduit);
  }

  lemma {:induction false} HolderStaysThrough(steps: seq<Step>, i: nat, j: nat, c: ConduitKey, g: string)
    requires i <= j <= |steps| && g != ""
    requires g in RunTo(steps, i).owners && RunTo(steps, i).owners[g] == c
    requires forall k :: i <= k < j ==> !EndsTurn(steps[k], c, g)
    ensures g in RunTo(steps, j).owners && RunTo(steps, j).owners[g] == c
    decreases j - i
  {
    if i < j {
      HolderStaysThrough(steps, i, j - 1, c, g);
      HolderStays(RunTo(steps, j - 1), steps[j - 1], c, g);
    }
  }

  /** A conduit that pushes and is not seen ready holds the lock of its group after the step. */
  lemma PusherHoldsNext(steps: seq<Step>, i: nat)
    requires i < |steps| && Pushes(RunTo(steps, i), steps[i]) && steps[i].group != "" && !steps[i].ready
    ensures var o := RunTo(steps, i + 1).owners; steps[i].group in o && o[steps[i].group] == steps[i].conduit
  {
    ReachableOwnersAreMembers(steps, i);
    PusherHolds(RunTo(steps, i), steps[i]);
  }

  /** It keeps the lock until its turn ends. */
  lemma PusherKeepsTurn(steps: seq<Step>, i: nat, j: nat, c: ConduitKey, g: string)
    requires i < j <= |steps| && Pushes(RunTo(steps, i), steps[i])
    requires steps[i].conduit == c && steps[i].group == g != ""
    requires forall k :: i <= k < j ==> !EndsTurn(steps[k], c, g)
    ensures g in RunTo(steps, j).owners && RunTo(steps, j).owners[g] == c
  {
    assert !EndsTurn(steps[i], c, g);
    PusherHoldsNext(steps, i);
    HolderStaysThrough(steps, i + 1, j, c, g);
  }

  /** Between pushes of two conduits of one group, the first conduit is seen ready, leaves the group or is deleted. */
  lemma OneUpdateAtATime(steps: seq<Step>, i: nat, j: nat)
    requires i < j < |steps|
    requires Pushes(RunTo(steps, i), steps[i]) && Pushes(RunTo(steps, j), steps[j])
    requires steps[i].group == steps[j].group != "" && steps[i].conduit != steps[j].conduit
    ensures exists k :: i <= k < j && EndsTurn(steps[k], steps[i].conduit, steps[i].group)
  {
    var c, g := steps[i].conduit, steps[i].group;
    if forall k :: i <= k < j ==> !EndsTurn(steps[k], c, g) {
      PusherKeepsTurn(steps, i, j, c, g);
      HolderStays(RunTo(steps, j), steps[j], c, g);
      assert false;
    }
  }

  // ---------- nobody waits for nothing ----------

  /** Conduit `c` has pushed in group `g` at step `i`, and its turn has not ended before step `j`. */
  ghost predicate InTurn(steps: seq<Step>, i: nat, j: nat, c: ConduitKey, g: string)
  {
    && i < j <= |steps| && Pushes(RunTo(steps, i), steps[i]) && steps[i].conduit == c && steps[i].group == g
    && (forall k :: i <= k < j ==> !EndsTurn(steps[k], c, g))
  }

  /** A step that ends the owner's turn takes its lock away. */
  lemma TurnEndReleases(st: State, s: Step, c: ConduitKey, g: string)
    requires OwnersAreMembers(st) && g in st.owners && st.owners[g] == c && EndsTurn(s, c, g)
    ensures g !in After(st, s).owners || After(st, s).owners[g] != c
  {
    assert st.groups[c] == g;
  }

  /** A lock that a conduit did not have before is taken by a push of that conduit, which is not ready yet. */
  lemma LockIsTakenByPush(st: State, s: Step, g: string)
    requires OwnersAreMembers(st) && g in After(st, s).owners
    requires g !in st.owners || st.owners[g] != After(st, s).owners[g]
    ensures Pushes(st, s) && s.group == g && s.conduit == After(st, s).owners[g] && !EndsTurn(s, s.conduit, g)
  {
    if s.Reconcile? && s.found {
      ManageKeepsMembers(st, s.group, s.conduit);
    }
  }

  /** In every reachable state a lock belongs to a conduit that is in its turn. */
  lemma {:induction false} LockedMeansTurn(steps: seq<Step>, j: nat, g: string)
    requires j <= |steps| && g in RunTo(steps, j).owners
    ensures RunTo(steps, j).owners[g] != "" && exists i :: InTurn(steps, i, j, RunTo(steps, j).owners[g], g)
  {
    ReachableOwnersAreMembers(steps, j);
    if j > 0 {
      var st, s := RunTo(steps, j - 1), steps[j - 1];
      var c: ConduitKey := RunTo(steps, j).owners[g];
      ReachableOwnersAreMembers(steps, j - 1);
      if g in st.owners && st.owners[g] == c {
        LockedMeansTurn(steps, j - 1, g);
        var i :| InTurn(steps, i, j - 1, c, g);
        if EndsTurn(s, c, g) {
          TurnEndReleases(st, s, c, g);
          assert false;
        }
        assert InTurn(steps, i, j, c, g);
      } else {
        LockIsTakenByPush(st, s, g);
        assert InTurn(steps, j - 1, j, c, g);
      }
    }
  }

  /** Another conduit's lock stands through a change of groups. */
  lemma OthersLockStands(st: State, g: string, c: string, h: string)
    ensures h in ManageGroupChange(st, g, c).owners ==>
      h in st.owners && st.owners[h] == ManageGroupChange(st, g, c).owners[h]
    ensures h in st.owners && st.owners[h] != c ==>
      h in ManageGroupChange(st, g, c).owners && ManageGroupChange(st, g, c).owners[h] == st.owners[h]
  {
  }

  /** In every run, a prepared update of a conduit in a group is refused if and only if another conduit is in its turn
      in that group. */
  lemma RefusedExactlyInTurn(steps: seq<Step>, j: nat)
    requires j < |steps| && steps[j].Reconcile? && steps[j].found && steps[j].prepared && steps[j].isUpdate
    requires steps[j].group != ""
    ensures !Pushes(RunTo(steps, j), steps[j]) <==>
            exists c: ConduitKey, i :: c != steps[j].conduit && InTurn(steps, i, j, c, steps[j].group)
  {
    var st, g, d := RunTo(steps, j), steps[j].group, steps[j].conduit;
    OthersLockStands(st, g, d, g);
    ReachableOwnersAreMembers(steps, j);
    if !Pushes(st, steps[j]) {
      LockedMeansTurn(steps, j, g);
      var c: ConduitKey := st.owners[g];
      var i :| InTurn(steps, i, j, c, g);
      assert c != d;
    }
    if c: ConduitKey, i :| c != d && InTurn(steps, i, j, c, g) {
      PusherKeepsTurn(steps, i, j, c, g);
    }
  }

  /** The group a conduit was last seen in, "" when it was in none or has been deleted since. */
  ghost function LastGroup(steps: seq<Step>, n: nat, c: string): string
    requires n <= |steps|
  {
    if n == 0 then ""
    else
      var s := steps[n - 1];
      if s.conduit != c || (s.Reconcile? && !s.found) then LastGroup(steps, n - 1, c)
      else if s.Deletion? then "" else s.group
  }

  /** In every reachable state the group recorded for a conduit is the one it was last seen in. */
  lemma {:induction false} GroupsAreLastSeen(steps: seq<Step>, n: nat, c: string)
    requires n <= |steps|
    ensures forall d :: d in RunTo(steps, n).groups ==> RunTo(steps, n).groups[d] != ""
    ensures Recorded(RunTo(steps, n), c) == LastGroup(steps, n, c)
  {
    if n > 0 {
      GroupsAreLastSeen(steps, n - 1, c);
      GroupAfter(RunTo(steps, n - 1), steps[n - 1], c);
    }
  }

  lemma GroupAfter(st: State, s: Step, c: string)
    requires forall d :: d in st.groups ==> st.groups[d] != ""
    ensures forall d :: d in After(st, s).groups ==> After(st, s).groups[d] != ""
    ensures Recorded(After(st, s), c) ==
            if s.conduit != c || (s.Reconcile? && !s.found) then Recorded(st, c)
            else if s.Deletion? then "" else s.group
  {
    if s.Reconcile? && s.found {
      ManageRecords(st, s.group, s.conduit, c);
      assert After(st, s).groups == ManageGroupChange(st, s.group, s.conduit).groups;
    }
  }

  lemma ManageRecords(st: State, g: string, c: string, d: string)
    requires forall e :: e in st.groups ==> st.groups[e] != ""
    ensures forall e :: e in ManageGroupChange(st, g, c).groups ==> ManageGroupChange(st, g, c).groups[e] != ""
    ensures Recorded(ManageGroupChange(st, g, c), d) == if d == c then g else Recorded(st, d)
  {
  }

  function Recorded(st: State, c: string): string { if c in st.groups then st.groups[c] else "" }

  // ---------- the controller ----------

  /** The owner is written once, when the lock is created. */
  class UpdateLock {
    var owner: string

    constructor ()
      ensures owner == ""
    {
      owner := "";
    }
  }

  class ConduitReconciler {
    var updateSyncGroups: map<string, string>
    var updateLocks: map<string, UpdateLock>

    constructor ()
      ensures Current() == State(map[], map[])
    {
      updateSyncGroups, updateLocks := map[], map[];
    }

    function Current(): State
      reads this, updateLocks.Values
    {
      State(updateSyncGroups, map g | g in updateLocks :: updateLocks[g].owner)
    }

    /** Locks created earlier are not written to: only `this` is in the frame. */
    method AcquireGroupLock(group: string, owner: string) returns (ok: bool)
      modifies this`updateLocks
      ensures ok == old(CanAcquire(Current(), group, owner))
      ensures Current() == if ok then AcquireLock(old(Current()), group, owner) else old(Current())
      ensures fresh(updateLocks.Values - old(updateLocks.Values))
    {
      var loaded := group in updateLocks;
      if loaded {
        var ul := updateLocks[group];
        return !(ul.owner != "" && ul.owner != owner);
      }
      var ul := new UpdateLock();
      ul.owner := owner;
      updateLocks := updateLocks[group := ul];
      ok := true;
    }

    method HoldsLock(group: string, owner: string) returns (ok: bool)
      ensures ok == HasLock(Current(), group, owner)
    {
      ok := group in updateLocks && updateLocks[group].owner != "" && updateLocks[group].owner == owner;
    }

    method ReleaseGroupLock(group: string, owner: string)
      modifies this`updateLocks
      ensures Current() == ReleaseLock(old(Current()), group, owner)
      ensures updateLocks.Values <= old(updateLocks.Values)
    {
      if group in updateLocks && updateLocks[group].owner == owner {
        updateLocks := updateLocks - {group};
      }
    }

    method ManageUpdateSyncGroupChange(group: string, c: string)
      modifies this
      ensures Current() == ManageGroupChange(old(Current()), group, c)
      ensures updateLocks.Values <= old(updateLocks.Values)
    {
      var known := c in updateSyncGroups;
      if (known && updateSyncGroups[c] == group) || (!known && group == "") {
        return;
      }
      if known {
        ReleaseGroupLock(updateSyncGroups[c], c);
      }
      if group != "" {
        updateSyncGroups := updateSyncGroups[c := group];
      } else {
        updateSyncGroups := updateSyncGroups - {c};
      }
    }

    method CleanupLock(c: ConduitKey)
      modifies this
      ensures Current() == After(old(Current()), Deletion(c))
    {
      if c in updateSyncGroups {
        var group := updateSyncGroups[c];
        updateSyncGroups := updateSyncGroups - {c};
        ReleaseGroupLock(group, c);
      }
    }

    /** The readiness check and the release come last, after the actions have been pushed. */
    method Reconcile(c: ConduitKey, found: bool, group: string, prepared: bool, isUpdate: bool, ready: bool)
      returns (pushed: bool)
      modifies this
      ensures Current() == After(old(Current()), Step.Reconcile(c, found, group, prepared, isUpdate, ready))
      ensures pushed == old(Pushes(Current(), Step.Reconcile(c, found, group, prepared, isUpdate, ready)))
    {
      pushed := false;
      if !found {
        return;
      }
      ManageUpdateSyncGroupChange(group, c);
      if !prepared {
        return;
      }
      var release := false;
      if group != "" {
        if isUpdate {
          var acquired := AcquireGroupLock(group, c);
          if !acquired {
            return;
          }
        }
        release := HoldsLock(group, c);
      }
      pushed := isUpdate;
      if release && ready {
        ReleaseGroupLock(group, c);
      }
    }
  }
}
