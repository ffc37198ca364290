/** The log as a function of the run history, and the calendar rule it refines. */
module History {
  import opened Common
  import opened Model
  import opened Ledger
  import opened OnceOnly
  import opened Isolation

  // ---------------------------------------------------------------- one slot in one run

  ghost predicate DistinctSlots(tasks: seq<Task>) {
    forall i, j :: 0 <= i < j < |tasks| ==> tasks[i].slot != tasks[j].slot
  }

  /** What these tasks do to one slot. */
  function TaskFor(tasks: seq<Task>, slot: Slot): Option<Task> {
    if tasks == [] then None
    else if tasks[0].slot == slot then Some(tasks[0]) else TaskFor(tasks[1..], slot)
  }

  lemma {:induction false} TaskForNone(tasks: seq<Task>, slot: Slot)
    ensures TaskFor(tasks, slot).None? <==> forall task :: task in tasks ==> task.slot != slot
    ensures TaskFor(tasks, slot).Some? ==>
        TaskFor(tasks, slot).value in tasks && TaskFor(tasks, slot).value.slot == slot
  {
    if tasks != [] {
      TaskForNone(tasks[1..], slot);
      assert forall task :: task in tasks <==> task == tasks[0] || task in tasks[1..];
    }
  }

  lemma {:induction false} TaskForOnly(tasks: seq<Task>, task: Task)
    requires DistinctSlots(tasks) && task in tasks
    ensures TaskFor(tasks, task.slot) == Some(task)
  {
    if tasks[0] != task {
      var i :| 0 <= i < |tasks| && tasks[i] == task;
      assert task in tasks[1..] by { assert tasks[1..][i - 1] == task; }
      TaskForOnly(tasks[1..], task);
    }
  }

  function PostsOf(task: Option<Task>, oracle: Oracle): seq<Reply> {
    if task.Some? && task.value.Deliver? then Posts(oracle, task.value.slot, 0, task.value.tries) else []
  }

  /** What one task makes of its slot's row, when nothing unexpected is raised. */
  function RowStep(row: Option<Row>, task: Option<Task>, oracle: Oracle): Option<Row> {
    if task.None? then row
    else if task.value.Mark? then (if row.Some? then row else Some(Row(Skipped, task.value.threshold, [], 1)))
    else if Final(row) then row
    else Some(Upsert(row, task.value, OutcomeOf(PostsOf(task, oracle))))
  }

  lemma {:induction false} SlotAfterTasks(p: Progress, tasks: seq<Task>, oracle: Oracle, slot: Slot)
    requires DistinctSlots(tasks) && Quiet(tasks, oracle) && !p.raised
    ensures var q, task := RunTasks(p, tasks, oracle), TaskFor(tasks, slot);
            && RowAt(q.st, slot) == RowStep(RowAt(p.st, slot), task, oracle)
            && PostsAt(q.st, slot) == PostsAt(p.st, slot)
                                      + (if Final(RowAt(p.st, slot)) then [] else PostsOf(task, oracle))
    decreases |tasks|
  {
    if tasks != [] {
      var q := DoTask(p, tasks[0], oracle);
      assert tasks[0] in tasks;
      assert forall task :: task in tasks[1..] ==> task in tasks;
      if tasks[0].slot == slot {
        forall task | task in tasks[1..] ensures task.slot != slot {
          var i :| 0 <= i < |tasks[1..]| && tasks[1..][i] == task;
          assert tasks[i + 1] == task;
        }
        Untouched(q, tasks[1..], oracle, slot);
      } else {
        assert RowAt(q.st, slot) == RowAt(p.st, slot) && PostsAt(q.st, slot) == PostsAt(p.st, slot);
        SlotAfterTasks(q, tasks[1..], oracle, slot);
      }
    }
  }

  /** What a run plans for the record with this id, as the run reads it; nothing if it is not there. */
  function WorkOf(run: Run, id: int): seq<Task> { GroupFor(run, run.certs, id) }

  /** A run in which nothing unexpected is raised over this record. */
  ghost predicate Regular(run: Run, id: int) { DistinctIds(run.certs) && Quiet(WorkOf(run, id), run.oracle) }

  lemma SlotAfterRun(st: State, run: Run, slot: Slot)
    requires Regular(run, slot.cert)
    ensures var st', task := Execute(st, run).st, TaskFor(WorkOf(run, slot.cert), slot);
            && RowAt(st', slot) == RowStep(RowAt(st, slot), task, run.oracle)
            && PostsAt(st', slot) == PostsAt(st, slot)
                                     + (if Final(RowAt(st, slot)) then [] else PostsOf(task, run.oracle))
  {
    var work := WorkOf(run, slot.cert);
    GroupsLocal(Tally(st, 0, 0), run, run.certs, slot.cert);
    WorkDistinct(run, slot.cert);
    SlotAfterTasks(Begin(st), work, run.oracle, slot);
    assert RowAt(Execute(st, run).st, slot) == RowAt(RunTasks(Begin(st), work, run.oracle).st, slot);
  }

  // ---------------------------------------------------------------- a run names each slot once

  lemma DistinctConcat(a: seq<Task>, b: seq<Task>)
    requires DistinctSlots(a) && DistinctSlots(b)
    requires forall x, y :: x in a && y in b ==> x.slot != y.slot
    ensures DistinctSlots(a + b)
  {
    forall i, j | 0 <= i < j < |a + b| ensures (a + b)[i].slot != (a + b)[j].slot {
      if i < |a| <= j {
        assert a[i] in a;
        assert b[j - |a|] in b;
      }
    }
  }

  lemma {:induction false} MarkEachDistinct(id: int, t: int, channels: seq<Channel>)
    requires forall i, j :: 0 <= i < j < |channels| ==> channels[i] != channels[j]
    ensures DistinctSlots(MarkEach(id, t, channels))
  {
    if channels != [] {
      MarkEachDistinct(id, t, channels[1..]);
      MarkEachTasks(id, t, channels[1..]);
      DistinctConcat([Mark(Slot(id, channels[0], Threshold(t)), t)], MarkEach(id, t, channels[1..]));
    }
  }

  lemma {:induction false} MarksDistinct(id: int, ts: seq<int>, channels: seq<Channel>)
    requires StrictlyAscending(ts)
    requires forall i, j :: 0 <= i < j < |channels| ==> channels[i] != channels[j]
    ensures DistinctSlots(Marks(id, ts, channels))
  {
    if ts != [] {
      MarkEachDistinct(id, ts[0], channels);
      MarksDistinct(id, ts[1..], channels);
      MarkEachTasks(id, ts[0], channels);
      MarksTasks(id, ts[1..], channels);
      DistinctConcat(MarkEach(id, ts[0], channels), Marks(id, ts[1..], channels));
    }
  }

  /** One task for each named channel that is enabled, all about the same thing. */
  ghost predicate Owes(owed: seq<Task>, cert: Cert, threshold: int, key: Key, settings: Settings,
      channels: seq<Channel>) {
    && (forall task :: task in owed ==>
          task.Deliver? && task.threshold == threshold && task.slot == Slot(cert.id, task.slot.channel, key)
          && task.slot.channel in channels && Enabled(cert, settings, task.slot.channel)
          && task.recipients == (if task.slot.channel == Email then RecipientsFor(cert, settings) else []))
    && (forall c: Channel :: c in channels && Enabled(cert, settings, c) ==>
          exists task :: task in owed && task.slot == Slot(cert.id, c, key))
  }

  lemma DeliveriesOwed(cert: Cert, threshold: int, key: Key, settings: Settings, channels: seq<Channel>)
    ensures Owes(Deliveries(cert, threshold, key, settings, channels), cert, threshold, key, settings, channels)
  {
    var owed := Deliveries(cert, threshold, key, settings, channels);
    if Email in channels && Enabled(cert, settings, Email) {
      assert owed[0] in owed && owed[0].slot == Slot(cert.id, Email, key);
    }
    if Teams in channels && Enabled(cert, settings, Teams) {
      assert owed[|owed| - 1] in owed && owed[|owed| - 1].slot == Slot(cert.id, Teams, key);
    }
  }

  lemma DeliveriesDistinct(cert: Cert, threshold: int, key: Key, settings: Settings, channels: seq<Channel>)
    ensures DistinctSlots(Deliveries(cert, threshold, key, settings, channels))
    ensures Owes(Deliveries(cert, threshold, key, settings, channels), cert, threshold, key, settings, channels)
  {
    DeliveriesOwed(cert, threshold, key, settings, channels);
  }

  lemma DueDistinct(cert: Cert, due: Due, settings: Settings)
    requires StrictlyAscending(due.superseded)
    requires due.key.Threshold? ==> due.key.t !in due.superseded
    ensures DistinctSlots(DueTasks(cert, due, settings))
  {
    var channels := ChannelsFor(settings);
    MarksDistinct(cert.id, due.superseded, channels);
    MarksTasks(cert.id, due.superseded, channels);
    DeliveriesDistinct(cert, due.threshold, due.key, settings, DueChannels(due, settings));
    DistinctConcat(Marks(cert.id, due.superseded, channels),
                   Deliveries(cert, due.threshold, due.key, settings, DueChannels(due, settings)));
  }

  lemma TasksDistinct(run: Run, cert: Cert)
    ensures DistinctSlots(TasksOf(run, cert))
  {
    match run
    case Daily(_, settings, today, _) =>
      var plan := PlanFor(cert, cert.Thresholds(settings), today, settings.notifyWhenExpired);
      if plan.Some? { DueDistinct(cert, plan.value, settings); }
    case Escalation(_, settings, today, hour, _) =>
      DeliveriesDistinct(cert, EXPIRED_DAILY_THRESHOLD,
                         ExpiredSlot(today, Bucket(hour, settings.expiredTeamsEveryHours)), settings, [Teams]);
  }

  /** The record with this id as the run read it. */
  function RecordIn(certs: seq<Cert>, id: int): Option<Cert> {
    if certs == [] then None else if certs[0].id == id then Some(certs[0]) else RecordIn(certs[1..], id)
  }

  lemma {:induction false} WorkIs(run: Run, certs: seq<Cert>, id: int)
    ensures var record := RecordIn(certs, id);
            && GroupFor(run, certs, id) == (if record.None? then [] else TasksOf(run, record.value))
            && (record.Some? ==> record.value.id == id && record.value in certs)
  {
    if certs != [] { WorkIs(run, certs[1..], id); }
  }

  lemma WorkDistinct(run: Run, id: int)
    ensures DistinctSlots(WorkOf(run, id))
  {
    WorkIs(run, run.certs, id);
    if RecordIn(run.certs, id).Some? { TasksDistinct(run, RecordIn(run.certs, id).value); }
  }

  // ---------------------------------------------------------------- what a run means for a threshold

  /** Whether this run could send this certificate's notifications on a channel. */
  predicate Enabled(cert: Cert, settings: Settings, channel: Channel) {
    match channel
    case Email => RecipientsFor(cert, settings) != [] && settings.emailConfigured
    case Teams => settings.teamsWebhook != ""
  }

  /** A daily run reaches threshold t when the certificate is within t days of its expiry, and not past it. */
  predicate Reaches(run: Run, cert: Cert, t: int) {
    run.Daily? && 0 <= cert.DaysLeft(run.today) <= t
  }

  /** No effective threshold that is still ahead lies closer than t. */
  ghost predicate NearestTo(run: Run, cert: Cert, t: int) {
    Reaches(run, cert, t)
    && forall u :: u in Effective(cert.Thresholds(run.settings)) && cert.DaysLeft(run.today) <= u ==> t <= u
  }

  function TaskAt(run: Run, cert: Cert, channel: Channel, t: int): Option<Task> {
    TaskFor(TasksOf(run, cert), Slot(cert.id, channel, Threshold(t)))
  }

  lemma DueTaskFor(cert: Cert, due: Due, settings: Settings, channel: Channel, t: int)
    requires StrictlyAscending(due.superseded) && due.threshold !in due.superseded
    requires Enabled(cert, settings, channel)
    requires 0 <= due.days && due.key == Threshold(due.threshold)
    ensures var task := TaskFor(DueTasks(cert, due, settings), Slot(cert.id, channel, Threshold(t)));
            && (task.None? <==> t != due.threshold && t !in due.superseded)
            && (task.Some? ==> (task.value.Deliver? <==> t == due.threshold) && task.value.threshold == t)
            && (task.Some? && task.value.Deliver? ==>
                  task.value.recipients == if channel == Email then RecipientsFor(cert, settings) else [])
  {
    var tasks := DueTasks(cert, due, settings);
    var slot := Slot(cert.id, channel, Threshold(t));
    var owed := Deliveries(cert, due.threshold, due.key, settings, DueChannels(due, settings));
    TaskForNone(tasks, slot);
    MarksTasks(cert.id, due.superseded, ChannelsFor(settings));
    DeliveriesDistinct(cert, due.threshold, due.key, settings, DueChannels(due, settings));
    if t in due.superseded {
      assert Mark(slot, t) in Marks(cert.id, due.superseded, ChannelsFor(settings));
      assert Mark(slot, t) in tasks;
    } else if t == due.threshold {
      var task :| task in owed && task.slot == slot;
      assert task in tasks;
    }
  }

  /** A run attempts the nearest threshold it reaches, marks the others it reaches, and ignores the rest. */
  lemma ThresholdTask(run: Run, cert: Cert, channel: Channel, t: int)
    requires cert.status == Active && !cert.muted
    requires Enabled(cert, run.settings, channel)
    requires t in Effective(cert.Thresholds(run.settings))
    ensures var task := TaskAt(run, cert, channel, t);
            && (task.None? <==> !Reaches(run, cert, t))
            && (task.Some? ==> (task.value.Deliver? <==> NearestTo(run, cert, t)) && task.value.threshold == t)
            && (task.Some? && task.value.Deliver? ==>
                  task.value.recipients == if channel == Email then RecipientsFor(cert, run.settings) else [])
  {
    var slot := Slot(cert.id, channel, Threshold(t));
    TaskForNone(TasksOf(run, cert), slot);
    match run
    case Daily(_, settings, today, _) =>
      var plan := PlanFor(cert, cert.Thresholds(settings), today, settings.notifyWhenExpired);
      if plan.Some? {
        if plan.value.days < 0 {
          DeliveriesDistinct(cert, plan.value.threshold, plan.value.key, settings, DueChannels(plan.value, settings));
          assert Marks(cert.id, [], ChannelsFor(settings)) == [];
        } else {
          DueTaskFor(cert, plan.value, settings, channel, t);
        }
      }
    case Escalation(_, settings, today, hour, _) =>
      DeliveriesDistinct(cert, EXPIRED_DAILY_THRESHOLD,
                         ExpiredSlot(today, Bucket(hour, settings.expiredTeamsEveryHours)), settings, [Teams]);
  }

  /**
   * While a certificate is expired, a daily run attempts the reminder of the day
   * on a channel exactly when the reminders are on, the channel is enabled and,
   * for Teams, the hourly escalation is off.
   */
  lemma ReminderTask(run: Run, cert: Cert, channel: Channel)
    requires cert.status == Active && !cert.muted
    requires run.Daily? && cert.DaysLeft(run.today) < 0
    ensures var task := TaskFor(TasksOf(run, cert), Slot(cert.id, channel, ExpiredDay(run.today)));
            && (task.Some? <==> run.settings.notifyWhenExpired && Enabled(cert, run.settings, channel)
                                && (channel == Email || run.settings.expiredTeamsEveryHours == 0))
            && (task.Some? ==> task.value.Deliver?)
  {
    var slot := Slot(cert.id, channel, ExpiredDay(run.today));
    TaskForNone(TasksOf(run, cert), slot);
    var plan := PlanFor(cert, cert.Thresholds(run.settings), run.today, run.settings.notifyWhenExpired);
    if plan.Some? {
      var due := plan.value;
      var channels := DueChannels(due, run.settings);
      assert Marks(cert.id, [], ChannelsFor(run.settings)) == [];
      DeliveriesDistinct(cert, due.threshold, due.key, run.settings, channels);
      assert channel in channels
          <==> (channel in ChannelsFor(run.settings) && (channel == Email || run.settings.expiredTeamsEveryHours == 0));
    }
  }

  /** A run owes a certificate at most one message on each channel. */
  lemma OneMessageEach(run: Run, cert: Cert, a: Task, b: Task)
    requires a in TasksOf(run, cert) && b in TasksOf(run, cert)
    requires a.Deliver? && b.Deliver? && a.slot.channel == b.slot.channel
    ensures a == b
  {
    var tasks := TasksOf(run, cert);
    TasksDistinct(run, cert);
    SameKey(run, cert);
    var i :| 0 <= i < |tasks| && tasks[i] == a;
    var j :| 0 <= j < |tasks| && tasks[j] == b;
    assert a.slot == b.slot;
  }

  /** All of a certificate's deliveries in one run are about the same thing. */
  lemma SameKey(run: Run, cert: Cert)
    ensures forall a, b :: a in TasksOf(run, cert) && b in TasksOf(run, cert) && a.Deliver? && b.Deliver? ==>
              a.slot == Slot(cert.id, a.slot.channel, b.slot.key)
  {
    match run
    case Daily(_, settings, today, _) =>
      var plan := PlanFor(cert, cert.Thresholds(settings), today, settings.notifyWhenExpired);
      if plan.Some? {
        MarksTasks(cert.id, plan.value.superseded, ChannelsFor(settings));
        DeliveriesDistinct(cert, plan.value.threshold, plan.value.key, settings, DueChannels(plan.value, settings));
      }
    case Escalation(_, settings, today, hour, _) =>
      DeliveriesDistinct(cert, EXPIRED_DAILY_THRESHOLD,
                         ExpiredSlot(today, Bucket(hour, settings.expiredTeamsEveryHours)), settings, [Teams]);
  }

  /**
   * A daily run that reports ok leaves the nearest threshold SENT or SKIPPED and every other
   * one it reached on record.
   */
  lemma OkRunSettles(st: State, run: Run, cert: Cert, channel: Channel, t: int)
    requires run.Daily? && cert in run.certs && cert.status == Active && !cert.muted
    requires Enabled(cert, run.settings, channel) && t in Effective(cert.Thresholds(run.settings))
        && Reaches(run, cert, t)
    requires Execute(st, run).failures == 0
    ensures var row := RowAt(Execute(st, run).st, Slot(cert.id, channel, Threshold(t)));
            row.Some? && (NearestTo(run, cert, t) ==> row.value.status != Error)
  {
    OkRunIsComplete(st, run, run);
    InGroups(run, run.certs, cert);
    ThresholdTask(run, cert, channel, t);
    TaskForNone(TasksOf(run, cert), Slot(cert.id, channel, Threshold(t)));
  }

  lemma {:induction false} InGroups(run: Run, certs: seq<Cert>, cert: Cert)
    requires cert in certs
    ensures TasksOf(run, cert) in GroupsFrom(run, certs)
  {
    if certs[0] != cert { InGroups(run, certs[1..], cert); }
  }

  // ---------------------------------------------------------------- the log over a whole history

  /** What one run did about one slot. */
  datatype View = Ignored | Overtaken | Tried(delivered: bool)

  function ViewOf(run: Run, slot: Slot): View {
    var task := TaskFor(WorkOf(run, slot.cert), slot);
    if task.None? then Ignored
    else if task.value.Mark? then Overtaken
    else Tried(OutcomeOf(PostsOf(task, run.oracle)) == Delivered)
  }

  function Views(history: seq<Run>, slot: Slot): (r: seq<View>)
    ensures |r| == |history|
    ensures forall i :: 0 <= i < |history| ==> r[i] == ViewOf(history[i], slot)
  {
    if history == [] then []
    else Views(history[..|history| - 1], slot) + [ViewOf(history[|history| - 1], slot)]
  }

  /** The first thing that happened to the slot. */
  function First(views: seq<View>): View {
    if views == [] then Ignored
    else if First(views[..|views| - 1]) != Ignored then First(views[..|views| - 1]) else views[|views| - 1]
  }

  ghost predicate Succeeded(views: seq<View>) { Tried(true) in views }

  /** Attempts up to and including the first that succeeded. */
  ghost function Tries(views: seq<View>): nat {
    if views == [] then 0
    else
      var before := views[..|views| - 1];
      Tries(before) + (if views[|views| - 1].Tried? && !Succeeded(before) then 1 else 0)
  }

  lemma {:induction false} FirstIgnored(views: seq<View>)
    ensures First(views) == Ignored <==> forall i :: 0 <= i < |views| ==> views[i] == Ignored
  {
    if views != [] { FirstIgnored(views[..|views| - 1]); }
  }

  /** What the history says the row should be. */
  ghost predicate Explains(row: Option<Row>, views: seq<View>) {
    match First(views)
    case Ignored => row.None?
    case Overtaken => row.Some? && row.value.status == Skipped && row.value.attempts == 1
    case Tried(_) => row.Some? && row.value.status == (if Succeeded(views) then Sent else Error)
                     && row.value.attempts == Tries(views)
  }

  lemma ExplainsStep(row: Option<Row>, views: seq<View>, task: Option<Task>, oracle: Oracle, view: View)
    requires Explains(row, views)
    requires view == if task.None? then Ignored else if task.value.Mark? then Overtaken
                     else Tried(OutcomeOf(PostsOf(task, oracle)) == Delivered)
    ensures Explains(RowStep(row, task, oracle), views + [view])
  {
    var views' := views + [view];
    assert views'[..|views|] == views;
    assert Succeeded(views') <==> Succeeded(views) || view == Tried(true);
    FirstIgnored(views);
    NoTries(views);
  }

  /**
   * The row of any slot, after any history in which the record's own deliveries
   * end in success or a delivery error (other records may do as they please):
   * nothing until the first run that touched it; SKIPPED for good if that run
   * overtook it; otherwise SENT if some attempt got through and ERROR if none
   * did, with the attempts counted up to the first success. Each run reads the
   * record as it then is: it may be registered, edited, given another date,
   * muted, archived and restored between runs.
   */
  lemma {:induction false} RowFollowsHistory(st: State, history: seq<Run>, slot: Slot)
    requires slot !in st.log && forall run :: run in history ==> Regular(run, slot.cert)
    ensures Explains(RowAt(After(st, history), slot), Views(history, slot))
    decreases |history|
  {
    if history != [] {
      var n := |history| - 1;
      assert history[n] in history;
      assert forall r :: r in history[..n] ==> r in history;
      RowFollowsHistory(st, history[..n], slot);
      HistoryStep(After(st, history[..n]), history[n], slot, Views(history[..n], slot));
    }
  }

  lemma HistoryStep(st: State, run: Run, slot: Slot, views: seq<View>)
    requires Regular(run, slot.cert) && Explains(RowAt(st, slot), views)
    ensures Explains(RowAt(Execute(st, run).st, slot), views + [ViewOf(run, slot)])
  {
    SlotAfterRun(st, run, slot);
    ExplainsStep(RowAt(st, slot), views, TaskFor(WorkOf(run, slot.cert), slot), run.oracle, ViewOf(run, slot));
  }

  lemma {:induction false} NoTries(views: seq<View>)
    ensures (forall i :: 0 <= i < |views| ==> !views[i].Tried?) ==> Tries(views) == 0 && !Succeeded(views)
  {
    if views != [] { NoTries(views[..|views| - 1]); }
  }

  // ---------------------------------------------------------------- fixed schedule, dates moving forward

  /** The run finds the record on the board, active and not muted. */
  predicate TakesPart(run: Run, id: int) {
    var record := RecordIn(run.certs, id);
    record.Some? && record.value.status == Active && !record.value.muted
  }

  /** Whenever the record takes part it has this date and these thresholds, and the channel is on. */
  predicate OnSchedule(run: Run, id: int, channel: Channel, notAfter: int, thresholds: seq<int>) {
    TakesPart(run, id) ==>
      var record := RecordIn(run.certs, id).value;
      && record.notAfter == notAfter && record.Thresholds(run.settings) == thresholds
      && Enabled(record, run.settings, channel)
  }

  /**
   * Runs of either job, in date order, over which a record keeps its date and its
   * effective thresholds; anything else about it may change, and it may be away
   * from the board, archived or muted in some of them.
   */
  ghost predicate Steady(history: seq<Run>, id: int, channel: Channel, notAfter: int, thresholds: seq<int>) {
    && (forall i, j :: 0 <= i < j < |history| ==> history[i].today <= history[j].today)
    && (forall run :: run in history ==> Regular(run, id) && OnSchedule(run, id, channel, notAfter, thresholds))
  }

  predicate Reached(run: Run, id: int, t: int) {
    TakesPart(run, id) && Reaches(run, RecordIn(run.certs, id).value, t)
  }

  ghost predicate WasNearest(run: Run, id: int, t: int) {
    TakesPart(run, id) && NearestTo(run, RecordIn(run.certs, id).value, t)
  }

  /** A run that attempted threshold t and got the message out. */
  predicate Succeeds(run: Run, id: int, channel: Channel, t: int) {
    ViewOf(run, Slot(id, channel, Threshold(t))) == Tried(true)
  }

  ghost predicate EverReached(history: seq<Run>, id: int, t: int) {
    exists i :: 0 <= i < |history| && Reached(history[i], id, t)
  }

  ghost predicate EverNearest(history: seq<Run>, id: int, t: int) {
    exists i :: 0 <= i < |history| && WasNearest(history[i], id, t)
  }

  ghost predicate EverSucceeds(history: seq<Run>, id: int, channel: Channel, t: int) {
    exists i :: 0 <= i < |history| && Succeeds(history[i], id, channel, t)
  }

  /**
   * On a fixed schedule the row of threshold t is absent iff no run reached it;
   * SENT iff some run for which t was nearest got through; ERROR iff there were
   * such runs and all failed; SKIPPED otherwise. For SENT and ERROR, `attempts`
   * counts those runs up to the first success.
   */
  lemma ThresholdRow(st: State, history: seq<Run>, id: int, channel: Channel, notAfter: int, thresholds: seq<int>,
                     t: int)
    requires Steady(history, id, channel, notAfter, thresholds) && t in Effective(thresholds)
    requires Slot(id, channel, Threshold(t)) !in st.log
    ensures var slot := Slot(id, channel, Threshold(t));
            var row := RowAt(After(st, history), slot);
            var succeeded := EverSucceeds(history, id, channel, t);
            && (row.None? <==> !EverReached(history, id, t))
            && (row.Some? ==>
                  && (row.value.status == Sent <==> succeeded)
                  && (row.value.status == Error <==> EverNearest(history, id, t) && !succeeded)
                  && (row.value.status == Skipped <==> !EverNearest(history, id, t))
                  && (EverNearest(history, id, t) ==> row.value.attempts == Tries(Views(history, slot))))
  {
    var slot := Slot(id, channel, Threshold(t));
    RowFollowsHistory(st, history, slot);
    NearestComesFirst(history, id, channel, notAfter, thresholds, t);
    RowInViews(RowAt(After(st, history), slot), Views(history, slot));
    ReachedInViews(history, id, channel, notAfter, thresholds, t);
    NearestInViews(history, id, channel, notAfter, thresholds, t);
    SuccessInViews(history, id, channel, t);
  }

  lemma ReachedInViews(history: seq<Run>, id: int, channel: Channel, notAfter: int, thresholds: seq<int>, t: int)
    requires Steady(history, id, channel, notAfter, thresholds) && t in Effective(thresholds)
    ensures Touched(Views(history, Slot(id, channel, Threshold(t)))) <==> EverReached(history, id, t)
  {
    var views := Views(history, Slot(id, channel, Threshold(t)));
    forall i | 0 <= i < |history| ensures views[i] != Ignored <==> Reached(history[i], id, t) {
      assert history[i] in history;
      ViewMeaning(history[i], id, channel, notAfter, thresholds, t);
    }
  }

  lemma NearestInViews(history: seq<Run>, id: int, channel: Channel, notAfter: int, thresholds: seq<int>, t: int)
    requires Steady(history, id, channel, notAfter, thresholds) && t in Effective(thresholds)
    ensures Attempted(Views(history, Slot(id, channel, Threshold(t)))) <==> EverNearest(history, id, t)
  {
    var views := Views(history, Slot(id, channel, Threshold(t)));
    forall i | 0 <= i < |history| ensures views[i].Tried? <==> WasNearest(history[i], id, t) {
      assert history[i] in history;
      ViewMeaning(history[i], id, channel, notAfter, thresholds, t);
    }
  }

  lemma SuccessInViews(history: seq<Run>, id: int, channel: Channel, t: int)
    ensures Succeeded(Views(history, Slot(id, channel, Threshold(t)))) <==> EverSucceeds(history, id, channel, t)
  {
    var views := Views(history, Slot(id, channel, Threshold(t)));
    assert forall i :: 0 <= i < |history| ==> (views[i] == Tried(true) <==> Succeeds(history[i], id, channel, t));
    if Succeeded(views) {
      var i :| 0 <= i < |views| && views[i] == Tried(true);
      assert Succeeds(history[i], id, channel, t);
    }
    if EverSucceeds(history, id, channel, t) {
      var i :| 0 <= i < |history| && Succeeds(history[i], id, channel, t);
      assert views[i] == Tried(true);
    }
  }

  lemma ViewMeaning(run: Run, id: int, channel: Channel, notAfter: int, thresholds: seq<int>, t: int)
    requires OnSchedule(run, id, channel, notAfter, thresholds) && t in Effective(thresholds)
    ensures var view := ViewOf(run, Slot(id, channel, Threshold(t)));
            && (view != Ignored <==> Reached(run, id, t))
            && (view.Tried? <==> WasNearest(run, id, t))
  {
    WorkIs(run, run.certs, id);
    if TakesPart(run, id) { ThresholdTask(run, RecordIn(run.certs, id).value, channel, t); }
  }

  ghost predicate Touched(views: seq<View>) { exists i :: 0 <= i < |views| && views[i] != Ignored }

  ghost predicate Attempted(views: seq<View>) { exists i :: 0 <= i < |views| && views[i].Tried? }

  lemma RowInViews(row: Option<Row>, views: seq<View>)
    requires Explains(row, views)
    requires First(views).Tried? <==> Attempted(views)
    ensures row.None? <==> !Touched(views)
    ensures row.Some? ==>
              && (row.value.status == Sent <==> Succeeded(views))
              && (row.value.status == Error <==> Attempted(views) && !Succeeded(views))
              && (row.value.status == Skipped <==> !Attempted(views))
              && (Attempted(views) ==> row.value.attempts == Tries(views))
  {
    FirstIgnored(views);
    if Succeeded(views) {
      var i :| 0 <= i < |views| && views[i] == Tried(true);
      assert views[i].Tried?;
    }
  }

  /** Dates only move forward, so once a threshold is overtaken it is never nearest again. */
  lemma NearestComesFirst(history: seq<Run>, id: int, channel: Channel, notAfter: int, thresholds: seq<int>, t: int)
    requires Steady(history, id, channel, notAfter, thresholds) && t in Effective(thresholds)
    ensures var views := Views(history, Slot(id, channel, Threshold(t)));
            First(views).Tried? <==> Attempted(views)
  {
    var views := Views(history, Slot(id, channel, Threshold(t)));
    forall i, j | 0 <= i < j < |views| && views[i] == Overtaken ensures !views[j].Tried? {
      assert history[i] in history && history[j] in history;
      OvertakenForGood(history[i], history[j], id, channel, notAfter, thresholds, t);
    }
    TriedFirst(views);
  }

  lemma {:induction false} TriedFirst(views: seq<View>)
    requires forall i, j :: 0 <= i < j < |views| && views[i] == Overtaken ==> !views[j].Tried?
    ensures First(views).Tried? <==> Attempted(views)
  {
    if views != [] {
      var n := |views| - 1;
      TriedFirst(views[..n]);
      FirstIgnored(views[..n]);
      assert forall i :: 0 <= i < n ==> views[..n][i] == views[i];
      if First(views[..n]) != Ignored {
        var k := FirstIndex(views[..n]);
        assert views[k] == First(views[..n]);
      }
    }
  }

  lemma OvertakenForGood(earlier: Run, later: Run, id: int, channel: Channel, notAfter: int, thresholds: seq<int>,
                         t: int)
    requires earlier.today <= later.today && t in Effective(thresholds)
    requires OnSchedule(earlier, id, channel, notAfter, thresholds)
    requires OnSchedule(later, id, channel, notAfter, thresholds)
    requires ViewOf(earlier, Slot(id, channel, Threshold(t))) == Overtaken
    ensures !ViewOf(later, Slot(id, channel, Threshold(t))).Tried?
  {
    ViewMeaning(earlier, id, channel, notAfter, thresholds, t);
    ViewMeaning(later, id, channel, notAfter, thresholds, t);
    var u :| u in Effective(thresholds) && notAfter - earlier.today <= u && u < t;
  }

  lemma {:induction false} FirstIndex(views: seq<View>) returns (k: nat)
    requires First(views) != Ignored
    ensures k < |views| && views[k] == First(views)
  {
    if First(views[..|views| - 1]) != Ignored { k := FirstIndex(views[..|views| - 1]); }
    else { k := |views| - 1; }
  }

  // ---------------------------------------------------------------- the schedule theorem

  /** A message for this certificate went out on this channel between two states. */
  ghost predicate WentOut(before: State, after: State, id: int, channel: Channel) {
    exists key: Key :: AcceptedCount(PostsAt(after, Slot(id, channel, key)))
                       > AcceptedCount(PostsAt(before, Slot(id, channel, key)))
  }

  /**
   * A daily run on each day from D days ahead to the expiry day itself, the
   * record on the board in each and every delivery for it on this channel
   * getting through.
   */
  ghost predicate Countdown(history: seq<Run>, id: int, channel: Channel, notAfter: int, thresholds: seq<int>) {
    && Steady(history, id, channel, notAfter, thresholds)
    && forall i :: 0 <= i < |history| ==>
         && history[i].Daily? && TakesPart(history[i], id) && notAfter - history[i].today == |history| - 1 - i
         && forall t :: t in Effective(thresholds) && WasNearest(history[i], id, t) ==>
              Succeeds(history[i], id, channel, t)
  }

  /**
   * The log machinery refines the plain calendar rule. With D days to go on the
   * first day, the message of day d < D goes out iff d is a threshold (zero
   * always is), and that of day D iff some threshold is at least D.
   */
  lemma Schedule(st: State, history: seq<Run>, id: int, channel: Channel, notAfter: int, thresholds: seq<int>, i: nat)
    requires Countdown(history, id, channel, notAfter, thresholds) && i < |history|
    requires forall t :: Slot(id, channel, Threshold(t)) !in st.log
    ensures var d := notAfter - history[i].today;
            WentOut(After(st, history[..i]), After(st, history[..i + 1]), id, channel)
            <==> if i > 0 then d in Effective(thresholds) else exists t :: t in Effective(thresholds) && d <= t
  {
    if exists t :: t in Effective(thresholds) && notAfter - history[i].today <= t {
      var t := NearestDay(history, id, channel, notAfter, thresholds, i);
      DueDay(st, history, id, channel, notAfter, thresholds, i, t);
    } else {
      QuietDay(st, history, id, channel, notAfter, thresholds, i);
    }
  }

  lemma NearestDay(history: seq<Run>, id: int, channel: Channel, notAfter: int, thresholds: seq<int>, i: nat)
    returns (t: int)
    requires Countdown(history, id, channel, notAfter, thresholds) && i < |history|
    requires exists u :: u in Effective(thresholds) && notAfter - history[i].today <= u
    ensures t in Effective(thresholds) && WasNearest(history[i], id, t)
    ensures notAfter - history[i].today in Effective(thresholds) <==> notAfter - history[i].today == t
  {
    assert history[i] in history;
    t := Nearest(history[i], RecordIn(history[i].certs, id).value, thresholds);
  }

  lemma QuietDay(st: State, history: seq<Run>, id: int, channel: Channel, notAfter: int, thresholds: seq<int>, i: nat)
    requires Countdown(history, id, channel, notAfter, thresholds) && i < |history|
    requires !exists t :: t in Effective(thresholds) && notAfter - history[i].today <= t
    ensures !WentOut(After(st, history[..i]), After(st, history[..i + 1]), id, channel)
  {
    assert history[i] in history;
    AfterNext(st, history, i);
    NothingDue(After(st, history[..i]), history[i], id, channel);
  }

  lemma DueDay(st: State, history: seq<Run>, id: int, channel: Channel, notAfter: int, thresholds: seq<int>, i: nat,
               t: int)
    requires Countdown(history, id, channel, notAfter, thresholds) && i < |history|
    requires Slot(id, channel, Threshold(t)) !in st.log
    requires t in Effective(thresholds) && WasNearest(history[i], id, t)
    ensures WentOut(After(st, history[..i]), After(st, history[..i + 1]), id, channel)
            <==> i == 0 || notAfter - history[i].today == t
  {
    SteadyParts(history, id, channel, notAfter, thresholds, i);
    OutcomeOfDay(st, history[..i], history[i], id, channel, notAfter, thresholds, t);
    EarlierNearest(history, id, channel, notAfter, thresholds, i, t);
    AfterNext(st, history, i);
  }

  lemma AfterNext(st: State, history: seq<Run>, i: nat)
    requires i < |history|
    ensures After(st, history[..i + 1]) == Execute(After(st, history[..i]), history[i]).st
  {
    assert history[..i + 1][..i] == history[..i];
  }

  lemma SteadyParts(history: seq<Run>, id: int, channel: Channel, notAfter: int, thresholds: seq<int>, i: nat)
    requires Steady(history, id, channel, notAfter, thresholds) && i < |history|
    ensures Steady(history[..i], id, channel, notAfter, thresholds)
    ensures Regular(history[i], id) && OnSchedule(history[i], id, channel, notAfter, thresholds)
    ensures forall r :: r in history[..i] ==> r.today <= history[i].today
  {
    assert forall r :: r in history[..i] ==> r in history;
    assert history[i] in history;
  }

  /** Among the earlier days, the day before is the one to look at. */
  lemma EarlierNearest(history: seq<Run>, id: int, channel: Channel, notAfter: int, thresholds: seq<int>, i: nat,
                       t: int)
    requires Countdown(history, id, channel, notAfter, thresholds) && i < |history|
    requires t in Effective(thresholds) && WasNearest(history[i], id, t)
    ensures EverNearest(history[..i], id, t) <==> i > 0 && notAfter - history[i].today != t
  {
    assert history[i] in history;
    forall j | 0 <= j < i && WasNearest(history[..i][j], id, t) ensures notAfter - history[i].today < t {
      assert history[j] in history;
      assert notAfter - history[j].today <= t;
    }
    if i > 0 && notAfter - history[i].today != t {
      assert history[i - 1] in history;
      DayBefore(history[i - 1], history[i], id, channel, notAfter, thresholds, t);
      assert history[..i][i - 1] == history[i - 1];
    }
  }

  lemma DayBefore(earlier: Run, run: Run, id: int, channel: Channel, notAfter: int, thresholds: seq<int>, t: int)
    requires OnSchedule(earlier, id, channel, notAfter, thresholds)
    requires OnSchedule(run, id, channel, notAfter, thresholds)
    requires earlier.Daily? && TakesPart(earlier, id) && earlier.today == run.today - 1
    requires WasNearest(run, id, t) && notAfter - run.today != t
    ensures WasNearest(earlier, id, t)
  {
  }

  lemma Nearest(run: Run, cert: Cert, thresholds: seq<int>) returns (t: int)
    requires run.Daily? && 0 <= cert.DaysLeft(run.today) && cert.Thresholds(run.settings) == thresholds
    requires exists u :: u in Effective(thresholds) && cert.DaysLeft(run.today) <= u
    ensures t in Effective(thresholds) && NearestTo(run, cert, t)
  {
    var plan := PlanFor(cert, thresholds, run.today, run.settings.notifyWhenExpired);
    t := plan.value.threshold;
  }

  /** Only the nearest threshold is ever attempted. */
  lemma OnlyNearest(run: Run, cert: Cert, t: int)
    requires t in Effective(cert.Thresholds(run.settings)) && NearestTo(run, cert, t)
    ensures forall task :: task in TasksOf(run, cert) && task.Deliver? ==> task.slot.key == Threshold(t)
  {
    var plan := PlanFor(cert, cert.Thresholds(run.settings), run.today, run.settings.notifyWhenExpired);
    var due := plan.value;
    MarksTasks(cert.id, due.superseded, ChannelsFor(run.settings));
    DeliveriesDistinct(cert, due.threshold, due.key, run.settings, DueChannels(due, run.settings));
  }

  lemma QuietSlot(st: State, run: Run, slot: Slot)
    requires Regular(run, slot.cert)
    requires Final(RowAt(st, slot))
             || forall task :: task in WorkOf(run, slot.cert) && task.Deliver? ==> task.slot != slot
    ensures PostsAt(Execute(st, run).st, slot) == PostsAt(st, slot)
  {
    SlotAfterRun(st, run, slot);
    TaskForNone(WorkOf(run, slot.cert), slot);
  }

  lemma NothingDue(st: State, run: Run, id: int, channel: Channel)
    requires Regular(run, id) && run.Daily? && TakesPart(run, id)
    requires var record := RecordIn(run.certs, id).value;
             && record.DaysLeft(run.today) >= 0
             && forall t :: t in Effective(record.Thresholds(run.settings)) ==> t < record.DaysLeft(run.today)
    ensures !WentOut(st, Execute(st, run).st, id, channel)
  {
    WorkIs(run, run.certs, id);
    assert WorkOf(run, id) == [];
    forall key: Key
      ensures PostsAt(Execute(st, run).st, Slot(id, channel, key)) == PostsAt(st, Slot(id, channel, key))
    {
      QuietSlot(st, run, Slot(id, channel, key));
    }
  }

  /** What is nearest now was nearest to every earlier run that reached it. */
  lemma ReachedIsNearest(before: seq<Run>, run: Run, id: int, channel: Channel, notAfter: int, thresholds: seq<int>,
                         t: int)
    requires Steady(before, id, channel, notAfter, thresholds) && OnSchedule(run, id, channel, notAfter, thresholds)
    requires WasNearest(run, id, t) && forall r :: r in before ==> r.today <= run.today
    ensures EverReached(before, id, t) ==> EverNearest(before, id, t)
  {
    if EverReached(before, id, t) {
      var j :| 0 <= j < |before| && Reached(before[j], id, t);
      assert before[j] in before;
      assert WasNearest(before[j], id, t);
    }
  }

  /** On a day with a nearest threshold, the message goes out iff no earlier run had the same one. */
  lemma OutcomeOfDay(st: State, before: seq<Run>, run: Run, id: int, channel: Channel, notAfter: int,
                     thresholds: seq<int>, t: int)
    requires Steady(before, id, channel, notAfter, thresholds)
    requires Regular(run, id) && OnSchedule(run, id, channel, notAfter, thresholds)
    requires forall r :: r in before ==> r.today <= run.today
    requires t in Effective(thresholds) && WasNearest(run, id, t) && Succeeds(run, id, channel, t)
    requires forall j :: 0 <= j < |before| && WasNearest(before[j], id, t) ==> Succeeds(before[j], id, channel, t)
    requires Slot(id, channel, Threshold(t)) !in st.log
    ensures WentOut(After(st, before), Execute(After(st, before), run).st, id, channel) <==> !EverNearest(before, id, t)
  {
    var slot := Slot(id, channel, Threshold(t));
    var st0, st1 := After(st, before), Execute(After(st, before), run).st;
    ThresholdRow(st, before, id, channel, notAfter, thresholds, t);
    WorkIs(run, run.certs, id);
    OnlyNearest(run, RecordIn(run.certs, id).value, t);
    if EverNearest(before, id, t) {
      forall key: Key ensures PostsAt(st1, Slot(id, channel, key)) == PostsAt(st0, Slot(id, channel, key)) {
        QuietSlot(st0, run, Slot(id, channel, key));
      }
    } else {
      ReachedIsNearest(before, run, id, channel, notAfter, thresholds, t);
      FirstSend(st0, run, slot);
    }
  }

  lemma FirstSend(st: State, run: Run, slot: Slot)
    requires Regular(run, slot.cert) && ViewOf(run, slot) == Tried(true) && RowAt(st, slot).None?
    ensures AcceptedCount(PostsAt(Execute(st, run).st, slot)) > AcceptedCount(PostsAt(st, slot))
  {
    SlotAfterRun(st, run, slot);
    var task := TaskFor(WorkOf(run, slot.cert), slot);
    TaskForNone(WorkOf(run, slot.cert), slot);
    DeliveryCount(run.oracle, slot, task.value.tries);
    CountAppend(PostsAt(st, slot), PostsOf(task, run.oracle));
  }
}
