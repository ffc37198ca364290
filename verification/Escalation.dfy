/** How many Teams cards an expired certificate gets in a day. */
module Escalation {
  import opened Common
  import opened Model
  import opened Ledger
  import opened OnceOnly
  import opened Isolation
  import opened History
  import Keys

  const EMPTY := State(map[], map[])

  function HourSlot(id: int, day: int, hour: int): Slot { Slot(id, Teams, ExpiredSlot(day, hour)) }

  /** Accepted cards in the first `hours` hourly slots of a day. */
  function Cards(st: State, id: int, day: int, hours: nat): nat {
    if hours == 0 then 0
    else Cards(st, id, day, hours - 1) + AcceptedCount(PostsAt(st, HourSlot(id, day, hours - 1)))
  }

  /** How many of the first `hours` hours start a slot. */
  function SlotStarts(hours: nat, every: nat): nat
    requires every >= 1
  {
    if hours == 0 then 0 else SlotStarts(hours - 1, every) + (if (hours - 1) % every == 0 then 1 else 0)
  }

  /** Rounding up: the least number of slots of `every` hours that covers the hours. */
  function Ceiling(hours: nat, every: nat): nat
    requires every >= 1
  {
    if hours == 0 then 0 else (hours - 1) / every + 1
  }

  lemma {:induction false} SlotCount(hours: nat, every: nat)
    requires every >= 1
    ensures SlotStarts(hours, every) == Ceiling(hours, every)
  {
    if hours == 1 {
      DivMod(0, every, 0, 0);
      assert SlotStarts(0, every) == 0;
    } else if hours > 1 {
      SlotCount(hours - 1, every);
      DivStep(hours - 1, every);
    }
  }

  /** The interval the settings asked for is the same in every run that day. */
  ghost predicate EveryOn(history: seq<Run>, day: int, every: nat) {
    forall run :: run in history && run.today == day ==> run.settings.expiredTeamsEveryHours == every
  }

  /**
   * On that day no run of either job touches a Teams slot of this certificate other than the
   * start of an hourly slot.
   */
  lemma OnlySlotStarts(run: Run, cert: Cert, day: int, every: nat, key: Key)
    requires every >= 1 && (run.today == day ==> run.settings.expiredTeamsEveryHours == every)
    requires key == ExpiredDay(day) || (key.ExpiredSlot? && key.day == day && key.hour % every != 0)
    ensures forall task :: task in TasksOf(run, cert) ==> task.slot != Slot(cert.id, Teams, key)
  {
    match run
    case Daily(_, settings, today, _) =>
      var plan := PlanFor(cert, cert.Thresholds(settings), today, settings.notifyWhenExpired);
      if plan.Some? {
        var due := plan.value;
        MarksTasks(cert.id, due.superseded, ChannelsFor(settings));
        DeliveriesDistinct(cert, due.threshold, due.key, settings, DueChannels(due, settings));
        if due.days < 0 && today == day { NoTeams(cert, due, settings); }
      }
    case Escalation(_, settings, today, hour, _) =>
      DeliveriesDistinct(cert, EXPIRED_DAILY_THRESHOLD,
                         ExpiredSlot(today, Bucket(hour, settings.expiredTeamsEveryHours)), settings, [Teams]);
      Keys.BucketStart(hour, settings.expiredTeamsEveryHours);
      if today == day { DivMod(every * (hour / every), every, hour / every, 0); }
  }

  /** With the escalation on, the daily run sends no card about an expired certificate. */
  lemma NoTeams(cert: Cert, due: Due, settings: Settings)
    requires due.days < 0 && settings.expiredTeamsEveryHours != 0
    ensures forall task :: task in Deliveries(cert, due.threshold, due.key, settings, DueChannels(due, settings)) ==>
              task.slot.channel == Email
  {
    assert Teams !in DueChannels(due, settings);
  }

  lemma {:induction false} GroupsUntouched(t: Tally, run: Run, certs: seq<Cert>, slot: Slot)
    requires forall cert :: cert in certs && cert.id == slot.cert ==>
        forall task :: task in TasksOf(run, cert) ==> task.slot != slot
    ensures var u := RunGroups(t, GroupsFrom(run, certs), run.oracle);
            PostsAt(u.st, slot) == PostsAt(t.st, slot) && RowAt(u.st, slot) == RowAt(t.st, slot)
    decreases |certs|
  {
    if certs != [] {
      var g := TasksOf(run, certs[0]);
      TasksAreOwn(run, certs[0]);
      assert certs[0] in certs;
      Untouched(Begin(t.st), g, run.oracle, slot);
      assert forall cert :: cert in certs[1..] ==> cert in certs;
      GroupsUntouched(RunGroup(t, g, run.oracle), run, certs[1..], slot);
    }
  }

  lemma {:induction false} NothingElsewhere(history: seq<Run>, id: int, day: int, every: nat, key: Key)
    requires every >= 1 && EveryOn(history, day, every)
    requires key == ExpiredDay(day) || (key.ExpiredSlot? && key.day == day && key.hour % every != 0)
    ensures PostsAt(After(EMPTY, history), Slot(id, Teams, key)) == []
    decreases |history|
  {
    if history != [] {
      var n := |history| - 1;
      var run := history[n];
      assert run in history;
      assert forall r :: r in history[..n] ==> r in history;
      NothingElsewhere(history[..n], id, day, every, key);
      forall cert | cert in run.certs && cert.id == id
        ensures forall task :: task in TasksOf(run, cert) ==> task.slot != Slot(id, Teams, key)
      {
        OnlySlotStarts(run, cert, day, every, key);
      }
      GroupsUntouched(Tally(After(EMPTY, history[..n]), 0, 0), run, run.certs, Slot(id, Teams, key));
    }
  }

  lemma EmptyOnceEach()
    ensures OnceEach(EMPTY)
  {
  }

  /** A slot counts at most one card, and only slots that start an interval count any. */
  ghost predicate OnlyStarts(st: State, id: int, day: int, every: nat)
    requires every >= 1
  {
    forall b: nat :: b % every != 0 ==> PostsAt(st, HourSlot(id, day, b)) == []
  }

  lemma {:induction false} CardsBound(st: State, id: int, day: int, every: nat, hours: nat)
    requires every >= 1 && OnceEach(st) && OnlyStarts(st, id, day, every)
    ensures Cards(st, id, day, hours) <= SlotStarts(hours, every)
    ensures (forall b :: 0 <= b < hours && b % every == 0 ==> IsSent(st, HourSlot(id, day, b))) ==>
              Cards(st, id, day, hours) == SlotStarts(hours, every)
    decreases hours
  {
    if hours > 0 {
      CardsBound(st, id, day, every, hours - 1);
      var slot := HourSlot(id, day, hours - 1);
      assert Once(st, slot);
    }
  }

  lemma DayIsRegular(history: seq<Run>, id: int, day: int, every: nat)
    requires every >= 1 && EveryOn(history, day, every)
    ensures OnceEach(After(EMPTY, history)) && OnlyStarts(After(EMPTY, history), id, day, every)
  {
    EmptyOnceEach();
    ExactlyOnce(EMPTY, history, 0);
    forall b: nat | b % every != 0 ensures PostsAt(After(EMPTY, history), HourSlot(id, day, b)) == [] {
      NothingElsewhere(history, id, day, every, ExpiredSlot(day, b));
    }
  }

  /**
   * With an interval of h hours (1 to 24) an expired certificate gets at most
   * ceil(24 / h) cards in a day, however the runs of the two jobs fall and
   * fail, and the daily run's own slot for that day stays empty.
   */
  lemma DailyCards(history: seq<Run>, id: int, day: int, every: nat)
    requires 1 <= every <= 24 && EveryOn(history, day, every)
    ensures Cards(After(EMPTY, history), id, day, 24) <= Ceiling(24, every)
    ensures PostsAt(After(EMPTY, history), Slot(id, Teams, ExpiredDay(day))) == []
  {
    DayIsRegular(history, id, day, every);
    CardsBound(After(EMPTY, history), id, day, every, 24);
    SlotCount(24, every);
    NothingElsewhere(history, id, day, every, ExpiredDay(day));
  }

  /** The slot of the day an hourly run alerts in. */
  function SlotOf(run: Run, id: int): Slot
    requires run.Escalation?
  {
    HourSlot(id, run.today, Bucket(run.hour, run.settings.expiredTeamsEveryHours))
  }

  /** An hourly run that finds this certificate expired and gets its card accepted. */
  ghost predicate GoodRun(run: Run, id: int) {
    && run.Escalation? && Escalates(run.settings) && DistinctIds(run.certs)
    && TakesPart(run, id) && RecordIn(run.certs, id).value.DaysLeft(run.today) < 0
    && OutcomeOf(Posts(run.oracle, SlotOf(run, id), 0, TeamsTries(run.settings))) == Delivered
  }

  /** The slot has no row that says it was skipped. */
  predicate Unskipped(st: State, slot: Slot) {
    RowAt(st, slot).Some? ==> RowAt(st, slot).value.status != Skipped
  }

  lemma {:induction false} TasksUnskipped(p: Progress, tasks: seq<Task>, oracle: Oracle, slot: Slot)
    requires Unskipped(p.st, slot) && forall task :: task in tasks && task.Mark? ==> task.slot != slot
    ensures Unskipped(RunTasks(p, tasks, oracle).st, slot)
    decreases |tasks|
  {
    if tasks != [] && !p.raised {
      assert tasks[0] in tasks && forall task :: task in tasks[1..] ==> task in tasks;
      TasksUnskipped(DoTask(p, tasks[0], oracle), tasks[1..], oracle, slot);
    }
  }

  lemma {:induction false} GroupsUnskipped(t: Tally, run: Run, certs: seq<Cert>, slot: Slot)
    requires Unskipped(t.st, slot) && !slot.key.Threshold?
    ensures Unskipped(RunGroups(t, GroupsFrom(run, certs), run.oracle).st, slot)
    decreases |certs|
  {
    if certs != [] {
      NoMarks(run, certs[0]);
      TasksUnskipped(Begin(t.st), TasksOf(run, certs[0]), run.oracle, slot);
      GroupsUnskipped(RunGroup(t, TasksOf(run, certs[0]), run.oracle), run, certs[1..], slot);
    }
  }

  /** Only thresholds are ever marked, so whatever happens an hourly slot is never SKIPPED. */
  lemma {:induction false} NeverSkipped(history: seq<Run>, slot: Slot)
    requires !slot.key.Threshold?
    ensures Unskipped(After(EMPTY, history), slot)
    decreases |history|
  {
    if history != [] {
      var n := |history| - 1;
      NeverSkipped(history[..n], slot);
      GroupsUnskipped(Tally(After(EMPTY, history[..n]), 0, 0), history[n], history[n].certs, slot);
    }
  }

  lemma NoMarks(run: Run, cert: Cert)
    ensures forall task :: task in TasksOf(run, cert) && task.Mark? ==> task.slot.key.Threshold?
  {
    if run.Daily? {
      var plan := PlanFor(cert, cert.Thresholds(run.settings), run.today, run.settings.notifyWhenExpired);
      if plan.Some? { MarksTasks(cert.id, plan.value.superseded, ChannelsFor(run.settings)); }
    }
  }

  lemma GoodRunSends(history: seq<Run>, id: int, k: nat)
    requires k < |history| && GoodRun(history[k], id)
    ensures IsSent(After(EMPTY, history), SlotOf(history[k], id))
  {
    NeverSkipped(history[..k], SlotOf(history[k], id));
    AfterNext(EMPTY, history, k);
    RunSends(After(EMPTY, history[..k]), history[k], id);
    SentStays(history, k + 1, SlotOf(history[k], id));
  }

  lemma SentStays(history: seq<Run>, k: nat, slot: Slot)
    requires k <= |history| && IsSent(After(EMPTY, history[..k]), slot)
    ensures IsSent(After(EMPTY, history), slot)
  {
    EmptyOnceEach();
    ExactlyOnce(EMPTY, history, k);
    assert SlotKept(After(EMPTY, history[..k]), After(EMPTY, history), slot);
  }

  lemma RunSends(st: State, run: Run, id: int)
    requires GoodRun(run, id) && Unskipped(st, SlotOf(run, id))
    ensures IsSent(Execute(st, run).st, SlotOf(run, id))
  {
    var task := RunTask(run, id);
    assert TaskFor(WorkOf(run, id), task.slot) == Some(task);
    SlotAfterRun(st, run, task.slot);
  }

  lemma RunTask(run: Run, id: int) returns (task: Task)
    requires GoodRun(run, id)
    ensures task.Deliver? && task.slot == SlotOf(run, id) && WorkOf(run, id) == [task]
    ensures OutcomeOf(Posts(run.oracle, task.slot, 0, task.tries)) == Delivered && Regular(run, id)
  {
    WorkIs(run, run.certs, id);
    task := Deliver(SlotOf(run, id), EXPIRED_DAILY_THRESHOLD, [], TeamsTries(run.settings));
    assert WorkOf(run, id) == [task];
  }

  /** Some run alerted in this slot of the day and got its card through. */
  ghost predicate SlotServed(history: seq<Run>, id: int, slot: Slot) {
    exists k :: 0 <= k < |history| && GoodRun(history[k], id) && SlotOf(history[k], id) == slot
  }

  /**
   * When every slot of the day has a run that gets its card through (as when
   * every hour has one), the bound is met exactly, whatever else happened on
   * that day or before it.
   */
  lemma DailyCardsMet(history: seq<Run>, id: int, day: int, every: nat)
    requires 1 <= every <= 24 && EveryOn(history, day, every)
    requires forall b: nat :: b < 24 && b % every == 0 ==> SlotServed(history, id, HourSlot(id, day, b))
    ensures Cards(After(EMPTY, history), id, day, 24) == Ceiling(24, every)
  {
    forall b: nat | b < 24 && b % every == 0 ensures IsSent(After(EMPTY, history), HourSlot(id, day, b)) {
      var slot := HourSlot(id, day, b);
      assert SlotServed(history, id, slot);
      var k :| 0 <= k < |history| && GoodRun(history[k], id) && SlotOf(history[k], id) == slot;
      GoodRunSends(history, id, k);
    }
    DayIsRegular(history, id, day, every);
    CardsBound(After(EMPTY, history), id, day, every, 24);
    SlotCount(24, every);
  }
}
