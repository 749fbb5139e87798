/** The reconciling schedulers (core/schedule/service.go and service_v2.go): stored schedules, the live
    cron table, and Enable, Disable and update between them. */
module Scheduler {

  datatype Schedule = Schedule(id: nat, cron: string, enabled: bool, entryId: int)

  /** entries says which schedule each live cron entry fires; lastId is the last entry id handed out. */
  datatype State = State(store: map<nat, Schedule>, entries: map<int, nat>, lastId: nat)
  {
    ghost predicate Valid() {
      && (forall i | i in store :: store[i].id == i)
      && (forall e | e in entries :: 1 <= e <= lastId)
    }

    predicate Enabled(i: nat) {
      i in store && store[i].enabled
    }

    /** The stored entry id of schedule i is live. */
    predicate Recognised(i: nat) {
      i in store && store[i].entryId in entries
    }

    /** Some enabled schedule stores entry id e. */
    ghost predicate Named(e: int) {
      exists i | i in store :: store[i].enabled && store[i].entryId == e
    }

    /** Schedule i has the live entry it stores, and that entry fires it. */
    predicate Owns(i: nat) {
      Recognised(i) && entries[store[i].entryId] == i
    }

    ghost predicate AllOwn() {
      forall i | Enabled(i) :: Owns(i)
    }

    /** No enabled schedule stores the id of an entry that fires another one. */
    ghost predicate NoneForeign() {
      forall i | Enabled(i) && Recognised(i) :: Owns(i)
    }

    /** Stored entry ids that are not live can not become live again. */
    ghost predicate RestRetired() {
      forall i | Enabled(i) && !Recognised(i) :: store[i].entryId <= lastId
    }

    /** Live entries and enabled schedules correspond one to one. */
    ghost predicate Matched() {
      && AllOwn()
      && (forall e | e in entries :: Enabled(entries[e]) && store[entries[e]].entryId == e)
    }
  }

  /** Ids of entries are handed out once, so a store left by an earlier process is the only danger. */
  ghost predicate Safe(st: State) {
    st.Valid() && st.NoneForeign() && st.RestRetired()
  }

  // ---------- what the operations do ----------

  /** Enable: the entry is added in any case that the spec parses; the schedule is saved if that works. */
  function Enabling(st: State, s: Schedule, parses: bool, saved: bool): State {
    if !parses then st
    else State(if saved then st.store[s.id := s.(enabled := true, entryId := st.lastId + 1)] else st.store,
               st.entries[st.lastId + 1 := s.id], st.lastId + 1)
  }

  function Disabling(st: State, s: Schedule, saved: bool): State {
    State(if saved then st.store[s.id := s.(enabled := false, entryId := -1)] else st.store,
          st.entries - {s.entryId}, st.lastId)
  }

  /** What one pass of update did: the entries it added, by schedule, and the schedules whose save worked. */
  datatype Pass = Pass(added: map<nat, int>, saved: set<nat>)

  ghost predicate Fresh(added: map<nat, int>, from: nat, to: nat) {
    && (forall i | i in added :: from < added[i] <= to)
    && (forall i, j | i in added && j in added && added[i] == added[j] :: i == j)
  }

  ghost function Saving(store: map<nat, Schedule>, p: Pass): map<nat, Schedule> {
    map i | i in store ::
      if i in p.saved && i in p.added then store[i].(enabled := true, entryId := p.added[i]) else store[i]
  }

  /** Entries that no enabled schedule names are gone, the others stay, and the added ones are there. */
  ghost predicate Updating(st: State, st': State, p: Pass) {
    && st'.store == Saving(st.store, p)
    && st.lastId <= st'.lastId && Fresh(p.added, st.lastId, st'.lastId)
    && (forall i | i in p.added :: st.Enabled(i) && !st.Recognised(i))
    && (forall e :: e in st'.entries
                    <==> (e in st.entries && st.Named(e)) || (exists i | i in p.added :: p.added[i] == e))
    && (forall e | e in st.entries && st.Named(e) :: st'.entries[e] == st.entries[e])
    && (forall i | i in p.added :: st'.entries[p.added[i]] == i)
  }

  /** A pass in which every spec parsed and every save worked. */
  ghost predicate Complete(st: State, p: Pass) {
    forall i | st.Enabled(i) && !st.Recognised(i) :: i in p.added && i in p.saved
  }

  // ---------- single steps ----------

  /** A copy of a schedule, possibly out of date, that does not hold the live entry of another one. */
  ghost predicate OwnCopy(st: State, s: Schedule) {
    s.id in st.store && (s.entryId in st.entries ==> st.entries[s.entryId] == s.id)
  }

  lemma EnablingKeepsSafe(st: State, s: Schedule, parses: bool, saved: bool)
    requires Safe(st)
    ensures Safe(Enabling(st, s, parses, saved))
    ensures st.AllOwn() ==> Enabling(st, s, parses, saved).AllOwn()
    ensures forall i | st.Enabled(i) && st.Owns(i) ::
              Enabling(st, s, parses, saved).Enabled(i) && Enabling(st, s, parses, saved).Owns(i)
  {
    var st' := Enabling(st, s, parses, saved);
    assert forall i | st.Enabled(i) :: st.store[i].entryId <= st.lastId;
    forall i | st'.Enabled(i)
      ensures st'.Recognised(i) ==> st'.Owns(i)
      ensures st'.store[i].entryId <= st'.lastId
      ensures st.AllOwn() ==> st'.Owns(i)
    {
      if i == s.id && parses && saved {
        assert st'.Owns(i);
      } else {
        assert st.Enabled(i) && st.store[i].entryId <= st.lastId;
        assert st.Recognised(i) <==> st'.Recognised(i);
      }
    }
  }

  lemma DisablingKeepsSafe(st: State, s: Schedule, saved: bool)
    requires Safe(st) && OwnCopy(st, s)
    ensures Safe(Disabling(st, s, saved))
    ensures st.AllOwn() && saved ==> Disabling(st, s, saved).AllOwn()
    ensures forall i | i != s.id && st.Enabled(i) && st.Owns(i) ::
              Disabling(st, s, saved).Enabled(i) && Disabling(st, s, saved).Owns(i)
  {
    var st' := Disabling(st, s, saved);
    assert forall i | st.Enabled(i) :: st.store[i].entryId <= st.lastId;
    forall i | st'.Enabled(i)
      ensures st'.store[i].entryId <= st'.lastId && st.Enabled(i)
    {
      if i == s.id { assert !saved; }
    }
  }

  lemma UpdatingKeepsSafe(st: State, st': State, p: Pass)
    requires Safe(st) && Updating(st, st', p)
    ensures Safe(st')
    ensures st.AllOwn() ==> st'.AllOwn()
    ensures forall i | st.Enabled(i) && st.Owns(i) :: st'.Enabled(i) && st'.Owns(i)
  {
    forall i | st.Enabled(i) && st.Recognised(i) ensures st.Named(st.store[i].entryId) && st'.store[i] == st.store[i] {
    }
    forall i | st'.Enabled(i) ensures st.Enabled(i) {
    }
  }

  /** After a complete pass the live entries and the enabled schedules match, exactly when no stored id
      was mistaken for the entry of another schedule. */
  lemma CompletePassMatches(st: State, st': State, p: Pass)
    requires st.Valid() && Updating(st, st', p) && Complete(st, p)
    ensures st'.Matched() <==> st.NoneForeign()
  {
    forall i | st.Enabled(i)
      ensures st'.Enabled(i)
      ensures st.Recognised(i) ==> st'.store[i] == st.store[i] && st.Named(st.store[i].entryId)
                                   && (st'.Owns(i) <==> st.Owns(i))
      ensures !st.Recognised(i) ==> st'.Owns(i)
    {
    }
    if st.NoneForeign() {
      forall e | e in st'.entries ensures st'.Enabled(st'.entries[e]) && st'.store[st'.entries[e]].entryId == e {
        if e in st.entries && st.Named(e) {
          var i :| i in st.store && st.store[i].enabled && st.store[i].entryId == e;
          assert st.Recognised(i) && st.Owns(i);
        }
      }
      forall i | st'.Enabled(i) ensures st'.Owns(i) {
        assert st.Enabled(i);
      }
    }
  }

  // ---------- whole runs ----------

  datatype Step =
    | EnableStep(s: Schedule, parses: bool, saved: bool)
    | DisableStep(s: Schedule, saved: bool)
    | UpdateStep(pass: Pass)

  /** One atomic step. A copy given to Disable does not hold the live entry of another schedule; in the
      variant that only collects, update adds nothing. */
  ghost predicate Next(st: State, step: Step, st': State, collectOnly: bool) {
    match step
    case EnableStep(s, parses, saved) => s.id in st.store && st' == Enabling(st, s, parses, saved)
    case DisableStep(s, saved) => OwnCopy(st, s) && st' == Disabling(st, s, saved)
    case UpdateStep(p) => Updating(st, st', p) && (collectOnly ==> p.added == map[])
  }

  ghost predicate IsRun(sts: seq<State>, steps: seq<Step>, collectOnly: bool) {
    |sts| == |steps| + 1 && forall k | 0 <= k < |steps| :: Next(sts[k], steps[k], sts[k + 1], collectOnly)
  }

  lemma NextKeepsSafe(st: State, step: Step, st': State, collectOnly: bool)
    requires Safe(st) && Next(st, step, st', collectOnly)
    ensures Safe(st')
    ensures st.AllOwn() && !(step.DisableStep? && !step.saved) ==> st'.AllOwn()
    ensures forall i | st.Enabled(i) && st.Owns(i) && !(step.DisableStep? && step.s.id == i) ::
              st'.Enabled(i) && st'.Owns(i)
  {
    match step
    case EnableStep(s, parses, saved) => EnablingKeepsSafe(st, s, parses, saved);
    case DisableStep(s, saved) => DisablingKeepsSafe(st, s, saved);
    case UpdateStep(p) => UpdatingKeepsSafe(st, st', p);
  }

  /** Every pass over schedules that all own their entries is complete, whatever saves would have done. */
  lemma OwnedPassMatches(st: State, st': State, p: Pass)
    requires Safe(st) && st.AllOwn() && Updating(st, st', p)
    ensures st'.Matched()
  {
    CompletePassMatches(st, st', p);
  }

  /** Version 1, from a fresh process on: start with an empty cron table and whatever entry ids an earlier
      process stored, run one complete pass, then any steps. No schedule ever stores the entry of another
      one, and a complete pass always ends matched. As long as no save failed in Disable, every enabled
      schedule owns its entry at every moment, and after every pass, complete or not, there is no other. */
  lemma {:induction false} SchedulerRuns(sts: seq<State>, steps: seq<Step>, n: nat)
    requires IsRun(sts, steps, false) && 1 <= n < |sts|
    requires sts[0].Valid() && sts[0].entries == map[]
    requires steps[0].UpdateStep? && Complete(sts[0], steps[0].pass)
    ensures Safe(sts[n])
    ensures steps[n - 1].UpdateStep? && Complete(sts[n - 1], steps[n - 1].pass) ==> sts[n].Matched()
    ensures (forall k | 0 <= k < n :: !(steps[k].DisableStep? && !steps[k].saved)) ==>
            sts[n].AllOwn() && (steps[n - 1].UpdateStep? ==> sts[n].Matched())
  {
    if n == 1 {
      CompletePassMatches(sts[0], sts[1], steps[0].pass);
    } else {
      SchedulerRuns(sts, steps, n - 1);
      assert Next(sts[n - 1], steps[n - 1], sts[n], false);
      NextKeepsSafe(sts[n - 1], steps[n - 1], sts[n], false);
      if steps[n - 1].UpdateStep? {
        if Complete(sts[n - 1], steps[n - 1].pass) {
          CompletePassMatches(sts[n - 1], sts[n], steps[n - 1].pass);
        } else if sts[n - 1].AllOwn() {
          OwnedPassMatches(sts[n - 1], sts[n], steps[n - 1].pass);
        }
      }
    }
  }

  lemma NoSharedIds(st: State, i: nat, j: nat)
    requires st.AllOwn() && st.Enabled(i) && st.Enabled(j) && st.store[i].entryId == st.store[j].entryId
    ensures i == j
  {
    assert st.Owns(i) && st.Owns(j);
  }

  /** Either version: once it owns its entry, a schedule that is not disabled stays enabled and owned,
      whatever happens to the others and whichever saves fail. */
  lemma {:induction false} OwnedUntilDisabled(sts: seq<State>, steps: seq<Step>, collectOnly: bool, i: nat, m: nat,
                                              n: nat)
    requires IsRun(sts, steps, collectOnly) && m <= n < |sts|
    requires Safe(sts[m]) && sts[m].Enabled(i) && sts[m].Owns(i)
    requires forall k | m <= k < n :: !(steps[k].DisableStep? && steps[k].s.id == i)
    ensures Safe(sts[n]) && sts[n].Enabled(i) && sts[n].Owns(i)
  {
    if m < n {
      OwnedUntilDisabled(sts, steps, collectOnly, i, m, n - 1);
      assert Next(sts[n - 1], steps[n - 1], sts[n], collectOnly);
      NextKeepsSafe(sts[n - 1], steps[n - 1], sts[n], collectOnly);
    }
  }

  lemma {:induction false} RunStaysSafe(sts: seq<State>, steps: seq<Step>, collectOnly: bool, n: nat)
    requires IsRun(sts, steps, collectOnly) && n < |sts| && Safe(sts[0])
    ensures Safe(sts[n])
  {
    if n > 0 {
      RunStaysSafe(sts, steps, collectOnly, n - 1);
      assert Next(sts[n - 1], steps[n - 1], sts[n], collectOnly);
      NextKeepsSafe(sts[n - 1], steps[n - 1], sts[n], collectOnly);
    }
  }

  /** Either version, in a fresh process that finds no entry id of an earlier one: a schedule once enabled has its
      own entry for as long as it is not disabled, over any run of steps on this and other schedules. */
  lemma {:induction false} EnabledKeepsEntry(sts: seq<State>, steps: seq<Step>, collectOnly: bool, i: nat, m: nat,
                                             n: nat)
    requires IsRun(sts, steps, collectOnly) && m < n < |sts|
    requires sts[0].Valid() && sts[0].entries == map[] && forall j | sts[0].Enabled(j) :: sts[0].store[j].entryId <= 0
    requires steps[m].EnableStep? && steps[m].s.id == i && steps[m].parses && steps[m].saved
    requires forall k | m < k < n :: !(steps[k].DisableStep? && steps[k].s.id == i)
    ensures sts[n].Enabled(i) && sts[n].Owns(i)
  {
    RunStaysSafe(sts, steps, collectOnly, m + 1);
    assert Next(sts[m], steps[m], sts[m + 1], collectOnly);
    assert sts[m + 1].Owns(i);
    OwnedUntilDisabled(sts, steps, collectOnly, i, m + 1, n);
  }

  /** No live entry fires schedule i but the one it stores. */
  ghost predicate NoOther(st: State, i: nat) {
    i in st.store && forall e | e in st.entries && st.entries[e] == i :: e == st.store[i].entryId
  }

  /** Schedule i is not enabled, and no live entry fires it. */
  ghost predicate Silent(st: State, i: nat) {
    !st.Enabled(i) && forall e | e in st.entries :: st.entries[e] != i
  }

  /** Disable of the current copy silences a schedule exactly when it is saved and no other live entry fires it: one
      that an earlier Enable of the same schedule left behind goes on firing it. */
  lemma DisableSilencesExactlyWhen(st: State, i: nat, saved: bool)
    requires Safe(st) && st.Enabled(i) && OwnCopy(st, st.store[i])
    ensures Silent(Disabling(st, st.store[i], saved), i) <==> saved && NoOther(st, i)
  {
    var st' := Disabling(st, st.store[i], saved);
    assert forall e :: e in st'.entries <==> e in st.entries && e != st.store[i].entryId;
    if Silent(st', i) {
      forall e | e in st.entries && st.entries[e] == i ensures e == st.store[i].entryId {
        assert e != st.store[i].entryId ==> e in st'.entries;
      }
    }
  }

  lemma NextStaysSilent(st: State, step: Step, st': State, collectOnly: bool, i: nat)
    requires Next(st, step, st', collectOnly) && !st.Enabled(i) && !(step.EnableStep? && step.s.id == i)
    ensures !st'.Enabled(i) && (Silent(st, i) ==> Silent(st', i))
    ensures Safe(st) && step.UpdateStep? ==> Silent(st', i)
  {
    if step.UpdateStep? {
      UpdateSilences(st, st', step.pass, i);
    }
  }

  /** update removes every entry of a schedule that is not enabled. */
  lemma UpdateSilences(st: State, st': State, p: Pass, i: nat)
    requires Updating(st, st', p) && !st.Enabled(i)
    ensures !st'.Enabled(i)
    ensures Safe(st) || Silent(st, i) ==> Silent(st', i)
  {
    forall e | e in st'.entries && (Safe(st) || Silent(st, i)) ensures st'.entries[e] != i {
      if e in st.entries && st.Named(e) {
        var j :| j in st.store && st.store[j].enabled && st.store[j].entryId == e;
        assert Safe(st) ==> st.Owns(j);
      }
    }
  }

  /** Either version: a schedule whose current copy is disabled, with the change saved and no other entry that fires it,
      is not fired before it is enabled again, whatever happens to the others and whichever saves fail. */
  lemma {:induction false} DisabledStaysSilent(sts: seq<State>, steps: seq<Step>, collectOnly: bool, i: nat, m: nat,
                                               n: nat)
    requires IsRun(sts, steps, collectOnly) && m < n < |sts|
    requires NoOther(sts[m], i) && steps[m] == DisableStep(sts[m].store[i], true) && sts[m].store[i].id == i
    requires forall k | m < k < n :: !(steps[k].EnableStep? && steps[k].s.id == i)
    ensures Silent(sts[n], i)
  {
    assert Next(sts[n - 1], steps[n - 1], sts[n], collectOnly);
    if n > m + 1 {
      DisabledStaysSilent(sts, steps, collectOnly, i, m, n - 1);
      NextStaysSilent(sts[n - 1], steps[n - 1], sts[n], collectOnly, i);
    }
  }

  lemma {:induction false} DisabledStaysDisabled(sts: seq<State>, steps: seq<Step>, collectOnly: bool, i: nat, m: nat,
                                                 n: nat)
    requires IsRun(sts, steps, collectOnly) && m < n < |sts|
    requires steps[m].DisableStep? && steps[m].s.id == i && steps[m].saved
    requires forall k | m < k < n :: !(steps[k].EnableStep? && steps[k].s.id == i)
    ensures !sts[n].Enabled(i)
  {
    assert Next(sts[n - 1], steps[n - 1], sts[n], collectOnly);
    if n > m + 1 {
      DisabledStaysDisabled(sts, steps, collectOnly, i, m, n - 1);
      NextStaysSilent(sts[n - 1], steps[n - 1], sts[n], collectOnly, i);
    }
  }

  /** Whatever copy is disabled and whatever else fires the schedule: from the first update on no entry does. */
  lemma {:induction false} DisabledFallsSilent(sts: seq<State>, steps: seq<Step>, collectOnly: bool, i: nat, m: nat,
                                               u: nat, n: nat)
    requires IsRun(sts, steps, collectOnly) && m < u < n < |sts| && Safe(sts[0])
    requires steps[m].DisableStep? && steps[m].s.id == i && steps[m].saved && steps[u].UpdateStep?
    requires forall k | m < k < n :: !(steps[k].EnableStep? && steps[k].s.id == i)
    ensures Silent(sts[n], i)
  {
    DisabledStaysDisabled(sts, steps, collectOnly, i, m, n - 1);
    assert Next(sts[n - 1], steps[n - 1], sts[n], collectOnly);
    if n > u + 1 {
      DisabledFallsSilent(sts, steps, collectOnly, i, m, u, n - 1);
    }
    RunStaysSafe(sts, steps, collectOnly, n - 1);
    NextStaysSilent(sts[n - 1], steps[n - 1], sts[n], collectOnly, i);
  }

  /** For one, a schedule enabled twice: with the second entry stored, disabling it leaves the first one live. */
  lemma EnabledTwiceIsFired(s: Schedule)
    ensures var once := Enabling(State(map[s.id := s], map[], 0), s, true, true);
            var twice := Enabling(once, once.store[s.id], true, true);
            var last := Disabling(twice, twice.store[s.id], true);
            !last.Enabled(s.id) && 1 in last.entries && last.entries[1] == s.id
  {
  }

  /** Version 2's update only collects: it stores and adds nothing, keeps exactly the named entries, and ends
      matched exactly when every enabled schedule owned its entry before. */
  lemma CollectOnlyUpdate(st: State, st': State, p: Pass)
    requires st.Valid() && Next(st, UpdateStep(p), st', true)
    ensures st'.store == st.store
    ensures forall e :: e in st'.entries <==> e in st.entries && st.Named(e)
    ensures st'.Matched() <==> st.AllOwn()
  {
    if st.AllOwn() {
      forall e | e in st'.entries ensures st'.Enabled(st'.entries[e]) && st'.store[st'.entries[e]].entryId == e {
        var i :| i in st.store && st.store[i].enabled && st.store[i].entryId == e;
        assert st.Owns(i);
      }
      forall i | st'.Enabled(i) ensures st'.Owns(i) {
        assert st.Owns(i) && st.Named(st.store[i].entryId);
      }
    } else if st'.Matched() {
      forall i | st.Enabled(i) ensures st.Owns(i) {
        assert st'.Owns(i);
      }
    }
  }

  /** For one, a schedule that an earlier process enabled, with the empty cron table of a new one: the update of
      version 2 leaves it without an entry. */
  lemma CollectOnlyLeavesWithout(st': State, p: Pass)
    requires Next(State(map[0 := Schedule(0, "0 * * * *", true, 1)], map[], 0), UpdateStep(p), st', true)
    ensures st'.Enabled(0) && !st'.Recognised(0) && st'.entries == map[] && !st'.Matched()
  {
    var st := State(map[0 := Schedule(0, "0 * * * *", true, 1)], map[], 0);
    CollectOnlyUpdate(st, st', p);
    assert st.Enabled(0) && !st.Owns(0);
    assert forall e | e in st'.entries :: e in st.entries;
    assert st'.entries.Keys == {};
  }

  /** The stored id of an enabled schedule is live, but belongs to another one. */
  predicate Foreign(st: State, i: nat) {
    st.Enabled(i) && st.Recognised(i) && !st.Owns(i)
  }

  /** Enable makes the stored id of another schedule foreign exactly when it is the next id to be handed out; so Enable
      takes no schedule's place exactly when no other enabled one stores that id. */
  lemma EnableMistakesExactlyWhen(st: State, s: Schedule, saved: bool)
    requires st.Valid()
    ensures forall i | st.Enabled(i) && i != s.id ::
              Foreign(Enabling(st, s, true, saved), i) <==> Foreign(st, i) || st.store[i].entryId == st.lastId + 1
    ensures st.NoneForeign() ==>
            (Enabling(st, s, true, saved).NoneForeign()
             <==> forall i | st.Enabled(i) && i != s.id :: st.store[i].entryId != st.lastId + 1)
  {
    var st' := Enabling(st, s, true, saved);
    forall i | st.Enabled(i) && i != s.id
      ensures st'.Enabled(i) && st'.store[i] == st.store[i]
      ensures Foreign(st', i) <==> Foreign(st, i) || st.store[i].entryId == st.lastId + 1
    {
    }
    if st.NoneForeign() {
      forall i | st'.Enabled(i) && i != s.id ensures st.Enabled(i) {
      }
      if !saved && st.Enabled(s.id) && st.Recognised(s.id) {
        assert st.Owns(s.id);
      }
      assert !Foreign(st', s.id);
      if st'.NoneForeign() {
        forall i | st.Enabled(i) && i != s.id ensures !Foreign(st', i) {
        }
      }
    }
  }

  /** Without the first pass an id stored by an earlier process can be mistaken: here Enable hands id 1 to
      schedule 1 while schedule 0 still stores id 1, and then even a complete pass leaves schedule 0 without
      an entry that fires it. */
  lemma StaleIdIsMistaken(st': State, p: Pass)
    requires var st := State(map[0 := Schedule(0, "0 * * * *", true, 1), 1 := Schedule(1, "0 * * * *", false, -1)],
                             map[], 0);
             Updating(Enabling(st, st.store[1], true, true), st', p)
    ensures st'.Enabled(0) && !st'.Owns(0) && !st'.Matched()
    ensures forall e | e in st'.entries :: st'.entries[e] != 0
  {
    var st := State(map[0 := Schedule(0, "0 * * * *", true, 1), 1 := Schedule(1, "0 * * * *", false, -1)], map[], 0);
    var mid := Enabling(st, st.store[1], true, true);
    assert mid.entries == map[1 := 1] && mid.Recognised(0) && mid.Recognised(1);
    assert mid.Named(1);
  }

  // ---------- the services ----------

  /** schedule.Service and schedule.ServiceV2; collectOnly selects the second. A cron spec parses or not;
      the n-th call to the database fails exactly when fails(n). */
  class Service {
    var store: map<nat, Schedule>
    var entries: map<int, nat>
    var lastId: nat
    var calls: nat
    const parses: string -> bool
    const fails: nat -> bool
    const collectOnly: bool

    constructor (store: map<nat, Schedule>, parses: string -> bool, fails: nat -> bool, collectOnly: bool)
      ensures View() == State(store, map[], 0)
      ensures this.parses == parses && this.fails == fails && this.collectOnly == collectOnly && calls == 0
    {
      this.store, this.parses, this.fails, this.collectOnly := store, parses, fails, collectOnly;
      entries, lastId, calls := map[], 0, 0;
    }

    function View(): State
      reads this
    {
      State(store, entries, lastId)
    }

    ghost predicate NeverFails() {
      forall n: nat :: !fails(n)
    }

    /** cron.AddFunc */
    method AddFunc(spec: string, id: nat) returns (ok: bool, entryId: int)
      modifies this`entries, this`lastId
      ensures ok == parses(spec)
      ensures ok ==> lastId == old(lastId) + 1 == entryId && entries == old(entries)[entryId := id]
      ensures !ok ==> unchanged(this)
    {
      ok, entryId := parses(spec), 0;
      if ok {
        lastId := lastId + 1;
        entryId := lastId;
        entries := entries[entryId := id];
      }
    }

    /** cron.Remove */
    method Remove(entryId: int)
      modifies this`entries
      ensures entries == old(entries) - {entryId}
    {
      entries := entries - {entryId};
    }

    method Save(s: Schedule) returns (ok: bool)
      modifies this`store, this`calls
      ensures calls == old(calls) + 1 && ok == !fails(old(calls))
      ensures store == if ok then old(store)[s.id := s] else old(store)
    {
      ok := !fails(calls);
      calls := calls + 1;
      if ok {
        store := store[s.id := s];
      }
    }

    method Enable(s: Schedule) returns (ok: bool, ghost saved: bool)
      modifies this
      ensures View() == Enabling(old(View()), s, parses(s.cron), saved)
      ensures ok == saved == (parses(s.cron) && !fails(old(calls)))
      ensures !parses(s.cron) ==> unchanged(this)
      ensures parses(s.cron) ==> lastId == old(lastId) + 1 && entries == old(entries)[lastId := s.id]
      ensures ok ==> s.id in store && store[s.id] == s.(enabled := true, entryId := lastId)
      ensures if ok then store - {s.id} == old(store) - {s.id} else store == old(store)
    {
      var id;
      saved := false;
      ok, id := AddFunc(s.cron, s.id);
      if !ok { return; }
      ok := Save(s.(enabled := true, entryId := id));
      saved := ok;
    }

    method Disable(s: Schedule) returns (ok: bool)
      modifies this
      ensures View() == Disabling(old(View()), s, ok) && ok == !fails(old(calls))
      ensures entries == old(entries) - {s.entryId} && lastId == old(lastId)
      ensures ok ==> s.id in store && store[s.id] == s.(enabled := false, entryId := -1)
      ensures if ok then store - {s.id} == old(store) - {s.id} else store == old(store)
    {
      Remove(s.entryId);
      ok := Save(s.(enabled := false, entryId := -1));
    }

    /** fetch: the enabled schedules, each once, in some order. */
    method Fetch() returns (ok: bool, schedules: seq<Schedule>)
      requires View().Valid()
      modifies this`calls
      ensures ok == !fails(old(calls))
      ensures ok ==> Lists(schedules, store)
    {
      ok, schedules := !fails(calls), [];
      calls := calls + 1;
      var todo := set i | i in store && store[i].enabled;
      ghost var all := todo;
      while todo != {}
        invariant todo <= all
        invariant forall i | i in all - todo :: store[i] in schedules
        invariant forall s | s in schedules :: s.id in all - todo && store[s.id] == s
        invariant forall j, k | 0 <= j < k < |schedules| :: schedules[j].id != schedules[k].id
        decreases |todo|
      {
        var i :| i in todo;
        schedules := schedules + [store[i]];
        todo := todo - {i};
      }
    }

    /** getEntryIdsMap */
    method GetEntryIdsMap() returns (m: map<int, bool>)
      ensures m.Keys == entries.Keys && forall e | e in m :: !m[e]
    {
      m := map e | e in entries :: false;
    }

    /** update: one pass of the reconciliation; nothing happens if the schedules can not be fetched. */
    method Update() returns (ok: bool, ghost p: Pass)
      requires View().Valid()
      modifies this
      ensures ok == !fails(old(calls)) && (!ok ==> View() == old(View()))
      ensures ok ==> Updating(old(View()), View(), p) && (collectOnly ==> p.added == map[])
      ensures ok && !collectOnly ==> forall i | old(View()).Enabled(i) && !old(View()).Recognised(i) ::
                i in p.added <==> parses(old(store)[i].cron)
      ensures NeverFails() && !collectOnly
              && (forall i | old(View()).Enabled(i) && !old(View()).Recognised(i) :: parses(old(store)[i].cron))
              ==> Complete(old(View()), p)
    {
      p := Pass(map[], {});
      var schedules;
      ok, schedules := Fetch();
      if !ok { return; }
      var entryIdsMap := GetEntryIdsMap();
      ghost var st := View();
      entryIdsMap, p := EnableMissing(schedules, entryIdsMap);
      ghost var mid := View();
      RemoveUnmarked(entryIdsMap);
      UnmarkedRemoved(st, mid, View(), p, st.store.Keys, entryIdsMap);
    }

    /** First loop: marks the entries that enabled schedules name, and enables those without a live one. */
    method EnableMissing(schedules: seq<Schedule>, entryIdsMap: map<int, bool>)
        returns (marked: map<int, bool>, ghost p: Pass)
      requires View().Valid() && Lists(schedules, store)
      requires entryIdsMap.Keys == entries.Keys && forall e | e in entryIdsMap :: !entryIdsMap[e]
      modifies this
      ensures Reconciled(old(View()), View(), p, old(View()).store.Keys) && (collectOnly ==> p.added == map[])
      ensures marked.Keys == old(entries).Keys && forall e | e in marked :: marked[e] <==> old(View()).Named(e)
      ensures !collectOnly ==> forall i | old(View()).Enabled(i) && !old(View()).Recognised(i) ::
                i in p.added <==> parses(old(store)[i].cron)
      ensures NeverFails() ==> p.saved == p.added.Keys
    {
      ghost var st := View();
      p, marked := Pass(map[], {}), entryIdsMap;
      // the ids and the entry ids of the schedules seen
      ghost var seen: set<nat>, named: set<int> := {}, {};
      for k := 0 to |schedules|
        invariant Visited(st, schedules, k, seen, named)
        invariant Reconciled(st, View(), p, seen) && (collectOnly ==> p.added == map[])
        invariant Marks(st, marked, named)
        invariant !collectOnly ==> AllAdded(st, p, seen, parses)
        invariant NeverFails() ==> p.saved == p.added.Keys
      {
        VisitedMore(st, schedules, k, seen, named);
        marked, p := Visit(schedules[k], marked, st, p, seen, named);
        seen, named := seen + {schedules[k].id}, named + {schedules[k].entryId};
      }
      AllVisited(st, schedules, seen, named, marked);
    }

    /** The body of the first loop. */
    method Visit(s: Schedule, entryIdsMap: map<int, bool>, ghost st: State, ghost p: Pass, ghost seen: set<nat>,
                 ghost named: set<int>)
      returns (marked: map<int, bool>, ghost p': Pass)
      requires st.Valid() && s.enabled && s.id in st.store && st.store[s.id] == s && s.id !in seen
      requires Reconciled(st, View(), p, seen) && (collectOnly ==> p.added == map[])
      requires Marks(st, entryIdsMap, named) && (!collectOnly ==> AllAdded(st, p, seen, parses))
      modifies this
      ensures Reconciled(st, View(), p', seen + {s.id}) && (collectOnly ==> p'.added == map[])
      ensures Marks(st, marked, named + {s.entryId}) && (!collectOnly ==> AllAdded(st, p', seen + {s.id}, parses))
      ensures NeverFails() && p.saved == p.added.Keys ==> p'.saved == p'.added.Keys
    {
      marked, p' := entryIdsMap, p;
      if s.entryId in marked {
        marked := marked[s.entryId := true];
      } else if !collectOnly || !s.enabled {
        p' := EnableOne(s, st, p, seen);
      }
    }

    method EnableOne(s: Schedule, ghost st: State, ghost p: Pass, ghost seen: set<nat>) returns (ghost p': Pass)
      requires st.Valid() && s.enabled && s.id in st.store && st.store[s.id] == s && s.id !in seen
      requires Reconciled(st, View(), p, seen) && !st.Recognised(s.id)
      modifies this
      ensures Reconciled(st, View(), p', seen + {s.id})
      ensures AllAdded(st, p, seen, parses) ==> AllAdded(st, p', seen + {s.id}, parses)
      ensures NeverFails() && p.saved == p.added.Keys ==> p'.saved == p'.added.Keys
    {
      ghost var was := View();
      ghost var ok, saved := Enable(s);
      EnabledOneMore(st, was, View(), p, seen, s, parses(s.cron), saved);
      p' := Adding(p, s.id, was.lastId + 1, parses(s.cron), saved);
    }

    /** Second loop: removes the live entries left unmarked, in some order. */
    method RemoveUnmarked(entryIdsMap: map<int, bool>)
      modifies this`entries
      ensures entries == old(entries) - set e | e in entryIdsMap && !entryIdsMap[e]
    {
      var todo := entryIdsMap.Items;
      while todo != {}
        invariant todo <= entryIdsMap.Items
        invariant entries == old(entries) - set e | e in entryIdsMap && (e, entryIdsMap[e]) !in todo && !entryIdsMap[e]
        decreases |todo|
      {
        var item :| item in todo;
        if !item.1 {
          Remove(item.0);
        }
        todo := todo - {item};
      }
    }
  }

  /** The schedules fetched: the enabled ones, each once. */
  ghost predicate Lists(schedules: seq<Schedule>, store: map<nat, Schedule>) {
    && (forall i | i in store && store[i].enabled :: store[i] in schedules)
    && (forall s | s in schedules :: s.enabled && s.id in store && store[s.id] == s)
    && (forall j, k | 0 <= j < k < |schedules| :: schedules[j].id != schedules[k].id)
  }

  /** The first loop after the schedules seen: of those, some unrecognised ones have new entries. */
  ghost predicate Reconciled(st: State, now: State, p: Pass, seen: set<nat>) {
    && now.store == Saving(st.store, p) && p.saved <= p.added.Keys <= seen
    && st.lastId <= now.lastId && Fresh(p.added, st.lastId, now.lastId)
    && (forall i | i in p.added :: st.Enabled(i) && !st.Recognised(i))
    && EntriesAre(st, now, p.added)
  }

  ghost predicate Marks(st: State, marked: map<int, bool>, named: set<int>) {
    marked.Keys == st.entries.Keys && forall e | e in marked :: marked[e] <==> e in named
  }

  /** The ids and entry ids of the first k schedules. */
  ghost predicate Visited(st: State, schedules: seq<Schedule>, k: nat, seen: set<nat>, named: set<int>) {
    && st.Valid() && Lists(schedules, st.store) && k <= |schedules| && seen <= st.store.Keys
    && (forall j | 0 <= j < k :: schedules[j].id in seen && schedules[j].entryId in named)
    && (forall j | k <= j < |schedules| :: schedules[j].id !in seen)
    && (forall e | e in named :: st.Named(e))
  }

  lemma VisitedMore(st: State, schedules: seq<Schedule>, k: nat, seen: set<nat>, named: set<int>)
    requires Visited(st, schedules, k, seen, named) && k < |schedules|
    ensures var s := schedules[k];
            s.enabled && s.id in st.store && st.store[s.id] == s && s.id !in seen
            && Visited(st, schedules, k + 1, seen + {s.id}, named + {s.entryId})
  {
    assert schedules[k] in schedules;
  }

  lemma AllVisited(st: State, schedules: seq<Schedule>, seen: set<nat>, named: set<int>, marked: map<int, bool>)
    requires Visited(st, schedules, |schedules|, seen, named) && Marks(st, marked, named)
    ensures forall i | st.Enabled(i) :: i in seen
    ensures forall e | e in marked :: marked[e] <==> st.Named(e)
  {
  }

  ghost predicate EntriesAre(st: State, now: State, added: map<nat, int>) {
    && (forall e :: e in now.entries <==> e in st.entries || e in added.Values)
    && (forall e | e in st.entries :: now.entries[e] == st.entries[e])
    && (forall i | i in added :: now.entries[added[i]] == i)
  }

  /** Each unrecognised schedule seen has been given an entry exactly if its spec parses. */
  ghost predicate AllAdded(st: State, p: Pass, seen: set<nat>, parses: string -> bool) {
    forall i | i in seen && i in st.store && !st.Recognised(i) :: i in p.added <==> parses(st.store[i].cron)
  }

  lemma SavingMore(store: map<nat, Schedule>, p: Pass, i: nat, e: int)
    requires i in store && i !in p.added && i !in p.saved
    ensures Saving(store, Pass(p.added[i := e], p.saved)) == Saving(store, p)
    ensures Saving(store, Pass(p.added[i := e], p.saved + {i}))
            == Saving(store, p)[i := store[i].(enabled := true, entryId := e)]
  {
  }

  /** What Enable adds to the pass. */
  ghost function Adding(p: Pass, i: nat, e: int, parses: bool, saved: bool): Pass {
    if !parses then p else Pass(p.added[i := e], if saved then p.saved + {i} else p.saved)
  }

  lemma EnabledOneMore(st: State, was: State, now: State, p: Pass, seen: set<nat>, s: Schedule, parses: bool,
                       saved: bool)
    requires st.Valid() && s.enabled && s.id in st.store && st.store[s.id] == s && s.id !in seen
    requires Reconciled(st, was, p, seen) && !st.Recognised(s.id) && now == Enabling(was, s, parses, saved)
    ensures Reconciled(st, now, Adding(p, s.id, was.lastId + 1, parses, saved), seen + {s.id})
  {
    if parses {
      AddedOneMore(st, was, now, p, seen, s, saved);
    }
  }

  lemma AddedOneMore(st: State, was: State, now: State, p: Pass, seen: set<nat>, s: Schedule, saved: bool)
    requires st.Valid() && s.enabled && s.id in st.store && st.store[s.id] == s && s.id !in seen
    requires Reconciled(st, was, p, seen) && !st.Recognised(s.id) && now == Enabling(was, s, true, saved)
    ensures Reconciled(st, now, Adding(p, s.id, was.lastId + 1, true, saved), seen + {s.id})
  {
    SavingMore(st.store, p, s.id, was.lastId + 1);
    EntriesMore(st, was, now, p.added, s.id);
    var added := p.added[s.id := was.lastId + 1];
    assert forall i | i in added :: i == s.id || i in p.added;
    assert st.Enabled(s.id);
  }

  lemma EntriesMore(st: State, was: State, now: State, added: map<nat, int>, i: nat)
    requires st.Valid() && st.lastId <= was.lastId && Fresh(added, st.lastId, was.lastId) && i !in added
    requires EntriesAre(st, was, added)
    requires now.entries == was.entries[was.lastId + 1 := i] && now.lastId == was.lastId + 1
    ensures Fresh(added[i := was.lastId + 1], st.lastId, now.lastId)
    ensures EntriesAre(st, now, added[i := was.lastId + 1])
  {
    ValuesMore(added, i, was.lastId + 1);
  }

  lemma ValuesMore(added: map<nat, int>, i: nat, e: int)
    requires i !in added
    ensures added[i := e].Values == added.Values + {e}
  {
    var added' := added[i := e];
    assert added'[i] == e;
    forall x | x in added.Values ensures x in added'.Values {
      var j :| j in added && added[j] == x;
      assert added'[j] == x;
    }
  }

  lemma UnmarkedRemoved(st: State, mid: State, now: State, p: Pass, seen: set<nat>, m: map<int, bool>)
    requires st.Valid() && Reconciled(st, mid, p, seen)
    requires m.Keys == st.entries.Keys && forall e | e in m :: m[e] <==> st.Named(e)
    requires now == mid.(entries := mid.entries - set e | e in m && !m[e])
    ensures Updating(st, now, p)
  {
  }
}
