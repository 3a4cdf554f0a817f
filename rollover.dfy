/**
 * The effect of one rollover pass, stated on values: which date a recurring
 * instance is regenerated for, how the two collections are reconciled, and
 * what a whole pass over a snapshot of the registry does. Also the catch-up
 * loop's iteration, to state when it terminates.
 */
module Rollover {
  import opened Wrappers
  import opened Tasks

  /** Java's `long` division, which truncates toward zero (diffDays in the pass). */
  function TruncDiv(a: int, b: int): int
    requires b > 0
  {
    if a >= 0 then a / b else -((-a) / b)
  }

  /**
   * The first date of the weekly schedule that starts at `start` which is not
   * before `now`: what the catch-up loop is evidently meant to compute by
   * stepping one week at a time from the instance's start date.
   */
  function NextDueDate(now: int, start: int): (r: int)
    requires start < now
    ensures r >= now && r - WEEK_MILLIS < now && r > start
    ensures now - start <= WEEK_MILLIS ==> r == start + WEEK_MILLIS
    decreases now - start
  {
    if start + WEEK_MILLIS >= now then start + WEEK_MILLIS else NextDueDate(now, start + WEEK_MILLIS)
  }

  /** The date NextDueDate picks lies on the weekly schedule of `start`. */
  lemma {:induction false} NextDueDateOnSchedule(now: int, start: int)
    requires start < now
    ensures (NextDueDate(now, start) - start) % WEEK_MILLIS == 0
    decreases now - start
  {
    if start + WEEK_MILLIS < now {
      NextDueDateOnSchedule(now, start + WEEK_MILLIS);
    }
  }

  /**
   * The date an instance due at `start` is regenerated for when the pass runs
   * at `now`, or None when the pass leaves it alone. The path is chosen by the
   * raw millisecond difference: 0 regenerates from now, a positive one goes
   * through the (corrected) catch-up loop. Where the loop as written ends,
   * which is at most a week overdue, the date is start plus one week.
   */
  function RolledDate(now: int, start: int): (r: Option<int>)
    ensures r.Some? <==> now >= start
    ensures r.Some? ==> start < r.value && now <= r.value <= now + WEEK_MILLIS
    ensures r.Some? && now - start <= WEEK_MILLIS ==> r.value == start + WEEK_MILLIS
  {
    var diff := now - start;
    if diff == 0 then Some(now + WEEK_MILLIS)
    else if diff > 0 then Some(NextDueDate(now, start))
    else None
  }

  /**
   * diffDays plays no part: one millisecond either side of the due instant it
   * is 0, yet one side is regenerated and the other left alone.
   */
  lemma WholeDaysDoNotDecide(start: int)
    ensures TruncDiv(1, DAY_MILLIS) == 0 && RolledDate(start + 1, start).Some?
    ensures TruncDiv(-1, DAY_MILLIS) == 0 && RolledDate(start - 1, start).None?
  {
  }

  /** The variables the catch-up loop updates. */
  datatype CatchUpState = CatchUpState(diff: int, newDate: int)

  /**
   * One pass of the catch-up loop's body. It reads the instance's start date,
   * which nothing changes, so it does not depend on the state it starts from.
   */
  function CatchUpBody(now: int, start: int): CatchUpState {
    CatchUpState(now - (start + WEEK_MILLIS), start + WEEK_MILLIS)
  }

  /**
   * The loop's state after `k` passes (or fewer, once the guard fails),
   * entered with the difference now - start and the date `newDate`.
   */
  function CatchUpAfter(now: int, start: int, newDate: int, k: nat): CatchUpState {
    if k == 0 then CatchUpState(now - start, newDate)
    else
      var prev := CatchUpAfter(now, start, newDate, k - 1);
      if prev.diff > 0 then CatchUpBody(now, start) else prev
  }

  /** Overdue by more than a week: the guard holds after every number of passes. */
  lemma {:induction false} CatchUpDiverges(now: int, start: int, newDate: int, k: nat)
    requires now - start > WEEK_MILLIS
    ensures CatchUpAfter(now, start, newDate, k).diff > 0
  {
    if k > 0 {
      CatchUpDiverges(now, start, newDate, k - 1);
    }
  }

  /**
   * Entered with a positive difference, the loop exits after some number of
   * passes exactly when the instance is overdue by at most a week; it then
   * exits after one pass with the date start plus one week.
   */
  lemma CatchUpHaltsIff(now: int, start: int, newDate: int)
    requires now - start > 0
    ensures (exists k: nat :: CatchUpAfter(now, start, newDate, k).diff <= 0)
            <==> now - start <= WEEK_MILLIS
    ensures now - start <= WEEK_MILLIS ==>
              CatchUpAfter(now, start, newDate, 1)
              == CatchUpState(now - (start + WEEK_MILLIS), start + WEEK_MILLIS)
  {
    if now - start <= WEEK_MILLIS {
      assert CatchUpAfter(now, start, newDate, 1).diff <= 0;
    } else {
      forall k: nat
        ensures CatchUpAfter(now, start, newDate, k).diff > 0
      {
        CatchUpDiverges(now, start, newDate, k);
      }
    }
  }

  /**
   * An instance due 20 days ago: the loop as written never exits, while the
   * stepping loop ends on the schedule's date 21 days after the start.
   */
  lemma TwentyDaysOverdue(now: int, start: int, newDate: int)
    requires now == start + 20 * DAY_MILLIS
    ensures forall k: nat :: CatchUpAfter(now, start, newDate, k).diff > 0
    ensures NextDueDate(now, start) == start + 21 * DAY_MILLIS
  {
    forall k: nat
      ensures CatchUpAfter(now, start, newDate, k).diff > 0
    {
      CatchUpDiverges(now, start, newDate, k);
    }
    assert NextDueDate(now, start + WEEK_MILLIS) == start + 21 * DAY_MILLIS;
  }

  /** The instance built to replace `stale`: same description, a recurring marker, the new date. */
  function Regenerated(stale: Task, newDate: int, format: int -> string): Task {
    Task(stale.description, RECURRING_INITIALS, format(newDate), newDate)
  }

  /**
   * Reconciliation after regenerating `stale` as `renewed`: the registry loses
   * the stale key and gains the renewed one; the list loses every recurring entry
   * whose description contains the stale description and gains `renewed` at its end.
   */
  function Reconcile(s: TaskState, stale: Task, renewed: Task): (r: TaskState)
    ensures |r.tasks| > 0 && r.tasks[|r.tasks| - 1] == renewed
    ensures r.tasks[..|r.tasks| - 1] == WithoutStale(s.tasks, stale.description)
    ensures renewed in r.registry && r.registry[renewed] == renewed
    ensures forall k :: k in r.registry <==> k == renewed || (k in s.registry && k != stale)
    ensures forall k :: k in r.registry && k != renewed ==> r.registry[k] == s.registry[k]
  {
    var kept := WithoutStale(s.tasks, stale.description);
    assert (kept + [renewed])[..|kept|] == kept;
    TaskState(kept + [renewed], (s.registry - {stale})[renewed := renewed])
  }

  /** What the pass does for one instance of its snapshot. */
  function RollOne(s: TaskState, t: Task, now: int, format: int -> string): (r: TaskState)
    ensures now < t.date ==> r == s
    ensures now >= t.date ==> r == Reconcile(s, t, Regenerated(t, RolledDate(now, t.date).value, format))
  {
    match RolledDate(now, t.date)
    case None => s
    case Some(newDate) => Reconcile(s, t, Regenerated(t, newDate, format))
  }

  /** A whole pass: the instances of the snapshot, in its order, all against the same `now`. */
  function RollAll(s: TaskState, snapshot: seq<Task>, now: int, format: int -> string): TaskState {
    if snapshot == [] then s
    else
      var last := |snapshot| - 1;
      RollOne(RollAll(s, snapshot[..last], now, format), snapshot[last], now, format)
  }

  /** A pass over one more instance of the snapshot rolls that instance last. */
  lemma RollAllStep(s: TaskState, snapshot: seq<Task>, i: nat, now: int, format: int -> string)
    requires i < |snapshot|
    ensures RollAll(s, snapshot[..i + 1], now, format)
            == RollOne(RollAll(s, snapshot[..i], now, format), snapshot[i], now, format)
  {
    assert snapshot[..i + 1][..i] == snapshot[..i];
  }

  /** A pass over instances none of which is due yet changes nothing. */
  lemma {:induction false} FuturePassIsIdentity(s: TaskState, snapshot: seq<Task>, now: int, format: int -> string)
    requires forall i :: 0 <= i < |snapshot| ==> now < snapshot[i].date
    ensures RollAll(s, snapshot, now, format) == s
  {
    if snapshot != [] {
      FuturePassIsIdentity(s, snapshot[..|snapshot| - 1], now, format);
    }
  }

  /**
   * A regenerated instance: it keeps the description, its date is the first
   * date of the old instance's weekly schedule that is not before `now`, its
   * due text is that date formatted; it is at the end of the list and in the
   * registry, the old instance is gone from the registry, and it is the only
   * entry left in the list that the stale description's search would delete,
   * listed once.
   */
  lemma RollOneRegenerates(s: TaskState, t: Task, now: int, format: int -> string)
    requires now >= t.date
    ensures var r := RollOne(s, t, now, format);
            var renewed := r.tasks[|r.tasks| - 1];
            && renewed.description == t.description && IsRecurring(renewed)
            && now <= renewed.date && renewed.date - WEEK_MILLIS <= now
            && (renewed.date - t.date) % WEEK_MILLIS == 0 && renewed.date > t.date
            && renewed.dueText == format(renewed.date)
            && renewed in r.registry && r.registry[renewed] == renewed && t !in r.registry
            && multiset(r.tasks)[renewed] == 1
            && (forall x :: x in r.tasks && IsStale(x, t.description) ==> x == renewed)
  {
    var r := RollOne(s, t, now, format);
    var newDate := RolledDate(now, t.date).value;
    var renewed := Regenerated(t, newDate, format);
    var kept := WithoutStale(s.tasks, t.description);
    assert r == Reconcile(s, t, renewed);
    assert r.tasks == kept + [renewed];
    if now > t.date {
      NextDueDateOnSchedule(now, t.date);
    }
    ContainsSelf(t.description);
    CountWithoutStale(s.tasks, t.description, renewed);
    forall x | x in r.tasks && IsStale(x, t.description)
      ensures x == renewed
    {
      WithoutStaleMembership(s.tasks, t.description, x);
    }
  }

  /** Tasks that are not recurring keep their number of occurrences through a whole pass. */
  lemma {:induction false} PassKeepsOneOffTasks(s: TaskState, snapshot: seq<Task>, now: int, format: int -> string, x: Task)
    requires !IsRecurring(x)
    ensures multiset(RollAll(s, snapshot, now, format).tasks)[x] == multiset(s.tasks)[x]
  {
    if snapshot != [] {
      var last := |snapshot| - 1;
      var mid := RollAll(s, snapshot[..last], now, format);
      PassKeepsOneOffTasks(s, snapshot[..last], now, format, x);
      CountWithoutStale(mid.tasks, snapshot[last].description, x);
    }
  }

  /** Every registry entry is a recurring instance keyed by itself. */
  predicate KeyedBySelf(registry: map<Task, Task>) {
    forall k :: k in registry ==> registry[k] == k && IsRecurring(k)
  }

  /** At most one active instance per description. */
  predicate UniqueDescriptions(registry: map<Task, Task>) {
    forall a, b :: a in registry && b in registry && a.description == b.description ==> a == b
  }

  /** Each active instance is listed exactly once, and no other recurring entry is listed. */
  ghost predicate ListedOnce(s: TaskState) {
    forall x :: IsRecurring(x) ==> multiset(s.tasks)[x] == if x in s.registry then 1 else 0
  }

  /** The registry and the list agree. */
  ghost predicate Consistent(s: TaskState) {
    KeyedBySelf(s.registry) && UniqueDescriptions(s.registry) && ListedOnce(s)
  }

  /** No active description occurs inside another active description. */
  predicate SubstringFree(registry: map<Task, Task>) {
    forall a, b :: a in registry && b in registry && a != b ==> !Contains(b.description, a.description)
  }

  /**
   * Regenerating one active instance keeps the registry and the list in
   * agreement, provided no active description occurs inside another; every
   * other active instance stays active.
   */
  lemma RollOnePreservesConsistency(s: TaskState, t: Task, now: int, format: int -> string)
    requires Consistent(s) && SubstringFree(s.registry) && t in s.registry
    ensures Consistent(RollOne(s, t, now, format))
    ensures SubstringFree(RollOne(s, t, now, format).registry)
    ensures forall k :: k in s.registry && k != t ==> k in RollOne(s, t, now, format).registry
  {
    if now >= t.date {
      var renewed := Regenerated(t, RolledDate(now, t.date).value, format);
      var r := Reconcile(s, t, renewed);
      assert RollOne(s, t, now, format) == r;
      assert renewed != t by {
        assert renewed.date != t.date;
      }
      assert KeyedBySelf(r.registry) && UniqueDescriptions(r.registry) && SubstringFree(r.registry) by {
        ReconcileKeepsRegistryShape(s, t, renewed);
      }
      assert ListedOnce(r) by {
        ReconcileListsOnce(s, t, renewed);
      }
    }
  }

  lemma ReconcileKeepsRegistryShape(s: TaskState, stale: Task, renewed: Task)
    requires Consistent(s) && SubstringFree(s.registry) && stale in s.registry
    requires renewed.description == stale.description && IsRecurring(renewed)
    ensures var r := Reconcile(s, stale, renewed);
            KeyedBySelf(r.registry) && UniqueDescriptions(r.registry) && SubstringFree(r.registry)
  {
    var r := Reconcile(s, stale, renewed);
    forall k | k in s.registry && k != stale
      ensures k.description != stale.description
    {
      ContainsSelf(k.description);
    }
  }

  lemma ReconcileListsOnce(s: TaskState, stale: Task, renewed: Task)
    requires Consistent(s) && SubstringFree(s.registry) && stale in s.registry
    requires renewed.description == stale.description && IsRecurring(renewed) && renewed != stale
    ensures ListedOnce(Reconcile(s, stale, renewed))
  {
    var r := Reconcile(s, stale, renewed);
    var d := stale.description;
    assert r.tasks == WithoutStale(s.tasks, d) + [renewed];
    forall x | IsRecurring(x)
      ensures multiset(r.tasks)[x] == if x in r.registry then 1 else 0
    {
      CountWithoutStale(s.tasks, d, x);
      if x == renewed || x == stale {
        ContainsSelf(d);
      }
    }
  }

  /**
   * A whole pass over a snapshot of the active instances keeps the registry
   * and the list in agreement, provided no active description occurs inside
   * another.
   */
  lemma {:induction false} PassPreservesConsistency(s: TaskState, snapshot: seq<Task>, now: int, format: int -> string)
    requires Consistent(s) && SubstringFree(s.registry)
    requires forall i :: 0 <= i < |snapshot| ==> snapshot[i] in s.registry.Values
    requires forall i, j :: 0 <= i < j < |snapshot| ==> snapshot[i] != snapshot[j]
    ensures Consistent(RollAll(s, snapshot, now, format))
    ensures SubstringFree(RollAll(s, snapshot, now, format).registry)
    ensures forall k :: k in s.registry && k !in snapshot ==> k in RollAll(s, snapshot, now, format).registry
  {
    if snapshot != [] {
      var last := |snapshot| - 1;
      var init := snapshot[..last];
      PassPreservesConsistency(s, init, now, format);
      var mid := RollAll(s, init, now, format);
      var t := snapshot[last];
      assert t in s.registry by {
        var k :| k in s.registry && s.registry[k] == t;
      }
      assert t !in init;
      RollOnePreservesConsistency(mid, t, now, format);
    }
  }

  /**
   * Without the substring condition the pass can break the agreement: rolling
   * over "gym" also deletes the list entry of the active instance "gym class".
   */
  lemma SubstringCollisionBreaksConsistency(format: int -> string)
    ensures var gym := Task("gym", RECURRING_INITIALS, "", 0);
            var gymClass := Task("gym class", RECURRING_INITIALS, "", WEEK_MILLIS);
            var s := TaskState([gym, gymClass], map[gym := gym, gymClass := gymClass]);
            Consistent(s) && !Consistent(RollOne(s, gym, 0, format))
  {
    var gym := Task("gym", RECURRING_INITIALS, "", 0);
    var gymClass := Task("gym class", RECURRING_INITIALS, "", WEEK_MILLIS);
    var s := TaskState([gym, gymClass], map[gym := gym, gymClass := gymClass]);
    assert Consistent(s) by {
      CollisionStartsConsistent(gym, gymClass, s);
    }
    assert !Consistent(RollOne(s, gym, 0, format)) by {
      CollisionDropsOtherEntry(gym, gymClass, s, format);
    }
  }

  lemma CollisionStartsConsistent(gym: Task, gymClass: Task, s: TaskState)
    requires gym == Task("gym", RECURRING_INITIALS, "", 0)
    requires gymClass == Task("gym class", RECURRING_INITIALS, "", WEEK_MILLIS)
    requires s == TaskState([gym, gymClass], map[gym := gym, gymClass := gymClass])
    ensures Consistent(s)
  {
    assert |gym.description| != |gymClass.description|;
    assert multiset(s.tasks) == multiset{gym, gymClass};
  }

  lemma CollisionDropsOtherEntry(gym: Task, gymClass: Task, s: TaskState, format: int -> string)
    requires gym == Task("gym", RECURRING_INITIALS, "", 0)
    requires gymClass == Task("gym class", RECURRING_INITIALS, "", WEEK_MILLIS)
    requires s == TaskState([gym, gymClass], map[gym := gym, gymClass := gymClass])
    ensures var r := RollOne(s, gym, 0, format);
            gymClass in r.registry && multiset(r.tasks)[gymClass] == 0
  {
    var r := RollOne(s, gym, 0, format);
    var renewed := Regenerated(gym, WEEK_MILLIS, format);
    assert r.tasks == WithoutStale(s.tasks, "gym") + [renewed];
    assert WithoutStale(s.tasks, "gym") == [] by {
      assert IsStale(gym, "gym") by {
        ContainsSelf("gym");
      }
      assert IsStale(gymClass, "gym") by {
        assert "gym class"[..3] == "gym";
        assert IsPrefix("gym", "gym class");
      }
      assert s.tasks[1..] == [gymClass];
      assert WithoutStale([gymClass], "gym") == [];
    }
    assert |renewed.description| != |gymClass.description|;
  }
}
