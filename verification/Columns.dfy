/**
 * What a run asks for one record and what a delivery leaves behind, said in terms
 * of the stored columns and of plain numbers.
 */
module Columns {
  import opened Common
  import opened Model
  import opened Ledger
  import opened OnceOnly
  import opened Isolation
  import opened History

  // ---------------------------------------------------------------- which reminder is due

  /** The list in force: the record's own if it has a non-empty one, the settings' otherwise. */
  ghost predicate InForce(cert: Cert, settings: Settings, days: seq<int>) {
    if cert.reminderDays.Some? && cert.reminderDays.value != [] then days == cert.reminderDays.value
    else days == settings.thresholds
  }

  /** The days that count: those of the list, and the expiry day itself. */
  predicate Counts(days: seq<int>, t: int) { t in days || t == 0 }

  /** The nearest day that counts and is not yet passed with `left` days to go. */
  ghost predicate NearestDay(days: seq<int>, left: int, t: int) {
    Counts(days, t) && left <= t && forall u :: Counts(days, u) && left <= u ==> t <= u
  }

  /** How many requests one delivery may make. */
  function Allowance(channel: Channel, settings: Settings): nat {
    if channel == Email then 1 else if settings.webhookAllowed then 3 else 0
  }

  /** The delivery a record is owed on a channel for one key. */
  predicate Asks(task: Task, cert: Cert, channel: Channel, key: Key, threshold: int, settings: Settings) {
    && task.Deliver? && task.slot == Slot(cert.id, channel, key) && task.threshold == threshold
    && task.recipients == (if channel == Email then RecipientsFor(cert, settings) else [])
    && task.tries == Allowance(channel, settings)
  }

  /** These are the deliveries on a channel: exactly this one. */
  ghost predicate OnlyAsks(tasks: seq<Task>, cert: Cert, channel: Channel, key: Key, threshold: int,
                           settings: Settings) {
    && (exists task :: task in tasks && Asks(task, cert, channel, key, threshold, settings))
    && forall task :: task in tasks && task.Deliver? && task.slot.channel == channel ==>
         Asks(task, cert, channel, key, threshold, settings)
  }

  ghost predicate AsksNothing(tasks: seq<Task>, channel: Channel) {
    forall task :: task in tasks && task.Deliver? ==> task.slot.channel != channel
  }

  /** Somebody to mail and mail to do it with, or a webhook. */
  predicate ChannelOn(cert: Cert, settings: Settings, channel: Channel) {
    if channel == Email then RecipientsFor(cert, settings) != [] && settings.emailConfigured
    else settings.teamsWebhook != ""
  }

  lemma DeliveriesAsk(cert: Cert, threshold: int, key: Key, settings: Settings, channels: seq<Channel>,
                      channel: Channel)
    ensures var owed := Deliveries(cert, threshold, key, settings, channels);
            if channel in channels && ChannelOn(cert, settings, channel)
            then OnlyAsks(owed, cert, channel, key, threshold, settings)
            else AsksNothing(owed, channel)
  {
    var owed := Deliveries(cert, threshold, key, settings, channels);
    if channel in channels && ChannelOn(cert, settings, channel) {
      var mine := if channel == Email then owed[0] else owed[|owed| - 1];
      assert mine in owed && Asks(mine, cert, channel, key, threshold, settings);
    }
  }

  /** Marks before deliveries ask for nothing. */
  lemma MarksAsk(marks: seq<Task>, owed: seq<Task>, cert: Cert, channel: Channel, key: Key, threshold: int,
                 settings: Settings)
    requires forall task :: task in marks ==> task.Mark?
    ensures OnlyAsks(owed, cert, channel, key, threshold, settings) ==>
              OnlyAsks(marks + owed, cert, channel, key, threshold, settings)
    ensures AsksNothing(owed, channel) ==> AsksNothing(marks + owed, channel)
  {
    if OnlyAsks(owed, cert, channel, key, threshold, settings) {
      var task :| task in owed && Asks(task, cert, channel, key, threshold, settings);
      assert task in marks + owed;
    }
  }

  lemma DueAsks(cert: Cert, due: Due, settings: Settings, channel: Channel)
    requires channel in DueChannels(due, settings) || !ChannelOn(cert, settings, channel) || due.days < 0
    ensures var tasks := DueTasks(cert, due, settings);
            if channel in DueChannels(due, settings) && ChannelOn(cert, settings, channel)
            then OnlyAsks(tasks, cert, channel, due.key, due.threshold, settings)
            else AsksNothing(tasks, channel)
  {
    var marks := Marks(cert.id, due.superseded, ChannelsFor(settings));
    var owed := Deliveries(cert, due.threshold, due.key, settings, DueChannels(due, settings));
    MarksTasks(cert.id, due.superseded, ChannelsFor(settings));
    DeliveriesAsk(cert, due.threshold, due.key, settings, DueChannels(due, settings), channel);
    MarksAsk(marks, owed, cert, channel, due.key, due.threshold, settings);
  }

  /**
   * Up to its expiry day a daily run owes a record exactly one message on each
   * channel that is on, for the nearest day of the list in force, provided such
   * a day is left; and nothing on a channel that is off.
   */
  lemma DailyReminder(run: Run, cert: Cert, channel: Channel, days: seq<int>)
    requires run.Daily? && cert.status == Active && !cert.muted && run.today <= cert.notAfter
    requires InForce(cert, run.settings, days)
    ensures var tasks, left := TasksOf(run, cert), cert.notAfter - run.today;
            if ChannelOn(cert, run.settings, channel) && exists t :: Counts(days, t) && left <= t
            then exists t :: NearestDay(days, left, t)
                             && OnlyAsks(tasks, cert, channel, Threshold(t), t, run.settings)
            else AsksNothing(tasks, channel)
  {
    var plan := PlanFor(cert, cert.Thresholds(run.settings), run.today, run.settings.notifyWhenExpired);
    var left := cert.notAfter - run.today;
    assert forall t :: t in Effective(cert.Thresholds(run.settings)) <==> Counts(days, t);
    if plan.Some? {
      var due := plan.value;
      assert NearestDay(days, left, due.threshold);
      assert channel in DueChannels(due, run.settings) || !ChannelOn(cert, run.settings, channel);
      DueAsks(cert, due, run.settings, channel);
    }
  }

  /** The other days that count and were reached are marked, on the channels in use, and nothing else is. */
  lemma DailyMarks(run: Run, cert: Cert, channel: Channel, days: seq<int>, t: int)
    requires run.Daily? && cert.status == Active && !cert.muted && run.today <= cert.notAfter
    requires InForce(cert, run.settings, days)
    ensures var left := cert.notAfter - run.today;
            Mark(Slot(cert.id, channel, Threshold(t)), t) in TasksOf(run, cert)
            <==> (channel == Email || run.settings.teamsWebhook != "")
                 && Counts(days, t) && left <= t && !NearestDay(days, left, t)
  {
    var plan := PlanFor(cert, cert.Thresholds(run.settings), run.today, run.settings.notifyWhenExpired);
    assert forall u :: u in Effective(cert.Thresholds(run.settings)) <==> Counts(days, u);
    if plan.Some? {
      DueMarks(cert, plan.value, run.settings, channel, t);
    }
  }

  lemma DueMarks(cert: Cert, due: Due, settings: Settings, channel: Channel, t: int)
    ensures Mark(Slot(cert.id, channel, Threshold(t)), t) in DueTasks(cert, due, settings)
            <==> (channel == Email || settings.teamsWebhook != "") && t in due.superseded
  {
    MarksTasks(cert.id, due.superseded, ChannelsFor(settings));
    var owed := Deliveries(cert, due.threshold, due.key, settings, DueChannels(due, settings));
    assert forall task :: task in owed ==> task.Deliver?;
  }

  /**
   * Past its expiry a daily run owes a record the reminder of the day when those
   * are on, by mail, and by card only while the hourly alert is off; it marks
   * nothing.
   */
  lemma ExpiredReminder(run: Run, cert: Cert, channel: Channel)
    requires run.Daily? && cert.status == Active && !cert.muted && cert.notAfter < run.today
    ensures var tasks := TasksOf(run, cert);
            && (forall task :: task in tasks ==> task.Deliver?)
            && if run.settings.notifyWhenExpired && ChannelOn(cert, run.settings, channel)
                  && (channel == Email || run.settings.expiredTeamsEveryHours == 0)
               then OnlyAsks(tasks, cert, channel, ExpiredDay(run.today), -1, run.settings)
               else AsksNothing(tasks, channel)
  {
    var plan := PlanFor(cert, cert.Thresholds(run.settings), run.today, run.settings.notifyWhenExpired);
    if plan.Some? {
      var due := plan.value;
      assert Marks(cert.id, [], ChannelsFor(run.settings)) == [];
      assert due.threshold == -1;
      DueAsks(cert, due, run.settings, channel);
    }
  }

  /** An hourly run owes an expired record a card for its slot of the day when alerts and a webhook are on. */
  lemma HourlyCard(run: Run, cert: Cert)
    requires run.Escalation? && cert.status == Active && !cert.muted
    ensures var tasks, every := TasksOf(run, cert), run.settings.expiredTeamsEveryHours;
            var start := run.hour - run.hour % (if every < 1 then 1 else every);
            && AsksNothing(tasks, Email)
            && (forall task :: task in tasks ==> task.Deliver?)
            && if cert.notAfter < run.today && every != 0 && run.settings.teamsWebhook != ""
               then OnlyAsks(tasks, cert, Teams, ExpiredSlot(run.today, start), -1, run.settings)
               else tasks == []
  {
    if cert.notAfter < run.today && Escalates(run.settings) {
      var key := ExpiredSlot(run.today, Bucket(run.hour, run.settings.expiredTeamsEveryHours));
      DeliveriesAsk(cert, -1, key, run.settings, [Teams], Teams);
      DeliveriesAsk(cert, -1, key, run.settings, [Teams], Email);
    }
  }

  /** Archived and muted records are passed over. */
  lemma PassedOver(run: Run, cert: Cert)
    requires cert.status == Archived || cert.muted
    ensures TasksOf(run, cert) == []
  {
  }

  // ---------------------------------------------------------------- how many requests

  /** A run's deliveries never have more tries than the channel allows. */
  lemma TriesAre(run: Run, cert: Cert)
    ensures forall task :: task in TasksOf(run, cert) && task.Deliver? ==>
              task.tries == Allowance(task.slot.channel, run.settings)
  {
    if run.Daily? {
      var plan := PlanFor(cert, cert.Thresholds(run.settings), run.today, run.settings.notifyWhenExpired);
      if plan.Some? { MarksTasks(cert.id, plan.value.superseded, ChannelsFor(run.settings)); }
    }
  }

  lemma {:induction false} RequestsGrow(p: Progress, tasks: seq<Task>, oracle: Oracle, slot: Slot, most: nat)
    requires DistinctSlots(tasks)
    requires forall task :: task in tasks && task.Deliver? && task.slot == slot ==> task.tries <= most
    ensures var q := RunTasks(p, tasks, oracle);
            PostsAt(p.st, slot) <= PostsAt(q.st, slot) && |PostsAt(q.st, slot)| <= |PostsAt(p.st, slot)| + most
    decreases |tasks|
  {
    if tasks != [] && !p.raised {
      var task, q := tasks[0], DoTask(p, tasks[0], oracle);
      assert task in tasks && forall t :: t in tasks[1..] ==> t in tasks;
      if task.slot == slot {
        if task.Deliver? { RetryLoop(oracle, slot, 0, task.tries); }
        SlotsDiffer(tasks);
        Untouched(q, tasks[1..], oracle, slot);
      } else {
        assert PostsAt(q.st, slot) == PostsAt(p.st, slot);
        RequestsGrow(q, tasks[1..], oracle, slot, most);
      }
    }
  }

  lemma SlotsDiffer(tasks: seq<Task>)
    requires DistinctSlots(tasks) && tasks != []
    ensures forall task :: task in tasks[1..] ==> task.slot != tasks[0].slot
  {
    forall task | task in tasks[1..] ensures task.slot != tasks[0].slot {
      var i :| 0 <= i < |tasks[1..]| && tasks[1..][i] == task;
      assert tasks[i + 1] == task;
    }
  }

  /**
   * Whatever happens in a run, it makes at most three requests for a card and
   * none to a webhook that is not allowed, and at most one attempt at a mail.
   */
  lemma RequestBound(st: State, run: Run, slot: Slot)
    requires DistinctIds(run.certs)
    ensures var before, after := PostsAt(st, slot), PostsAt(Execute(st, run).st, slot);
            && before <= after
            && |after| <= |before| + if slot.channel == Email then 1 else if run.settings.webhookAllowed then 3 else 0
  {
    var work := WorkOf(run, slot.cert);
    WorkIs(run, run.certs, slot.cert);
    WorkDistinct(run, slot.cert);
    if RecordIn(run.certs, slot.cert).Some? { TriesAre(run, RecordIn(run.certs, slot.cert).value); }
    RequestsGrow(Begin(st), work, run.oracle, slot, Allowance(slot.channel, run.settings));
    GroupsLocal(Tally(st, 0, 0), run, run.certs, slot.cert);
    assert PostsAt(Execute(st, run).st, slot) == PostsAt(RunTasks(Begin(st), work, run.oracle).st, slot);
  }

  // ---------------------------------------------------------------- what one delivery leaves

  /** Nothing unexpected is raised over this record before, or other than, in this slot. */
  ghost predicate Unhindered(tasks: seq<Task>, oracle: Oracle, slot: Slot) {
    forall task :: task in tasks && task.Deliver? && task.slot != slot ==>
      OutcomeOf(Posts(oracle, task.slot, 0, task.tries)) != Crashed
  }

  lemma {:induction false} SlotDone(p: Progress, tasks: seq<Task>, task: Task, oracle: Oracle)
    requires DistinctSlots(tasks) && task in tasks && !p.raised && Unhindered(tasks, oracle, task.slot)
    ensures var q, done := RunTasks(p, tasks, oracle), DoTask(p, task, oracle);
            && RowAt(q.st, task.slot) == RowAt(done.st, task.slot)
            && PostsAt(q.st, task.slot) == PostsAt(done.st, task.slot)
    decreases |tasks|
  {
    var q := DoTask(p, tasks[0], oracle);
    assert tasks[0] in tasks && forall t :: t in tasks[1..] ==> t in tasks;
    SlotsDiffer(tasks);
    if tasks[0] == task {
      Untouched(q, tasks[1..], oracle, task.slot);
    } else {
      assert task in tasks[1..];
      SlotDone(q, tasks[1..], task, oracle);
      assert RowAt(q.st, task.slot) == RowAt(p.st, task.slot) && PostsAt(q.st, task.slot) == PostsAt(p.st, task.slot);
      SameDone(p, q, task, oracle);
    }
  }

  /** What a task makes of its slot depends on that slot alone. */
  lemma SameDone(p: Progress, q: Progress, task: Task, oracle: Oracle)
    requires RowAt(q.st, task.slot) == RowAt(p.st, task.slot) && PostsAt(q.st, task.slot) == PostsAt(p.st, task.slot)
    ensures var a, b := DoTask(p, task, oracle).st, DoTask(q, task, oracle).st;
            RowAt(a, task.slot) == RowAt(b, task.slot) && PostsAt(a, task.slot) == PostsAt(b, task.slot)
  {
    assert task.slot in p.st.log <==> task.slot in q.st.log;
  }

  lemma SlotInRun(st: State, run: Run, task: Task)
    requires DistinctIds(run.certs) && task in WorkOf(run, task.slot.cert)
    requires Unhindered(WorkOf(run, task.slot.cert), run.oracle, task.slot)
    ensures var done := DoTask(Begin(st), task, run.oracle).st;
            && RowAt(Execute(st, run).st, task.slot) == RowAt(done, task.slot)
            && PostsAt(Execute(st, run).st, task.slot) == PostsAt(done, task.slot)
  {
    var slot, work := task.slot, WorkOf(run, task.slot.cert);
    WorkDistinct(run, slot.cert);
    SlotDone(Begin(st), work, task, run.oracle);
    GroupsLocal(Tally(st, 0, 0), run, run.certs, slot.cert);
    var alone := RunTasks(Begin(st), work, run.oracle).st;
    assert RowAt(Execute(st, run).st, slot) == RowAt(alone, slot);
    assert PostsAt(Execute(st, run).st, slot) == PostsAt(alone, slot);
  }

  /** Worth another request: a transport error, 408, 429, or a server error. */
  predicate TryAgain(r: Reply) { r == HttpError || (r.Answer? && (r.code in {408, 429} || r.code >= 500)) }

  /**
   * The requests one delivery makes, in order, with the replies they meet: at
   * least one if any is allowed, each but the last answered so that it is worth
   * another, and no fewer than allowed unless the last reply is not.
   */
  ghost predicate RequestsOf(posts: seq<Reply>, oracle: Oracle, slot: Slot, allowance: nat) {
    && |posts| <= allowance && (allowance > 0 ==> posts != [])
    && (forall k :: 0 <= k < |posts| ==> posts[k] == oracle(slot, k))
    && (forall k :: 0 <= k < |posts| - 1 ==> TryAgain(posts[k]))
    && (0 < |posts| < allowance ==> !TryAgain(posts[|posts| - 1]))
  }

  /** The row those requests leave: none if the last raised something unexpected, else whether it was accepted. */
  ghost predicate RowLeft(before: Option<Row>, after: Option<Row>, task: Task, posts: seq<Reply>)
    requires task.Deliver?
  {
    if posts != [] && posts[|posts| - 1] == Unexpected then after == before
    else
      && after.Some?
      && after.value.status == (if posts != [] && posts[|posts| - 1].Answer? && posts[|posts| - 1].code < 400
                                then Sent else Error)
      && after.value.recipients == task.recipients
      && after.value.threshold == (if before.Some? then before.value.threshold else task.threshold)
      && after.value.attempts == (if before.Some? then before.value.attempts + 1 else 1)
  }

  lemma PostsAre(oracle: Oracle, slot: Slot, allowance: nat)
    ensures RequestsOf(Posts(oracle, slot, 0, allowance), oracle, slot, allowance)
  {
    RetryLoop(oracle, slot, 0, allowance);
    assert forall k: nat :: oracle(slot, 0 + k) == oracle(slot, k);
  }

  /**
   * A delivery owed by a run, to a slot whose row is not SENT or SKIPPED: its
   * requests and the row they leave. A settled slot is left exactly as it was.
   */
  lemma OneDelivery(st: State, run: Run, task: Task)
    requires DistinctIds(run.certs) && task in WorkOf(run, task.slot.cert) && task.Deliver?
    requires Unhindered(WorkOf(run, task.slot.cert), run.oracle, task.slot)
    ensures var before, after := RowAt(st, task.slot), RowAt(Execute(st, run).st, task.slot);
            var was, now := PostsAt(st, task.slot), PostsAt(Execute(st, run).st, task.slot);
            if before.Some? && before.value.status in {Sent, Skipped} then after == before && now == was
            else
              && was <= now
              && RequestsOf(now[|was|..], run.oracle, task.slot, Allowance(task.slot.channel, run.settings))
              && RowLeft(before, after, task, now[|was|..])
  {
    SlotInRun(st, run, task);
    WorkIs(run, run.certs, task.slot.cert);
    TriesAre(run, RecordIn(run.certs, task.slot.cert).value);
    TaskLeaves(st, task, run.oracle);
  }

  lemma TaskLeaves(st: State, task: Task, oracle: Oracle)
    requires task.Deliver?
    ensures var done := DoTask(Begin(st), task, oracle).st;
            var before, after := RowAt(st, task.slot), RowAt(done, task.slot);
            var was, now := PostsAt(st, task.slot), PostsAt(done, task.slot);
            if before.Some? && before.value.status in {Sent, Skipped} then after == before && now == was
            else was <= now && RequestsOf(now[|was|..], oracle, task.slot, task.tries)
                 && RowLeft(before, after, task, now[|was|..])
  {
    var posts := Posts(oracle, task.slot, 0, task.tries);
    PostsAre(oracle, task.slot, task.tries);
    Appended(PostsAt(st, task.slot), posts);
    TaskAppends(st, task, oracle, posts);
  }

  lemma Appended(was: seq<Reply>, posts: seq<Reply>)
    ensures was <= was + posts && (was + posts)[|was|..] == posts
  {
  }

  lemma TaskAppends(st: State, task: Task, oracle: Oracle, posts: seq<Reply>)
    requires task.Deliver? && posts == Posts(oracle, task.slot, 0, task.tries)
    ensures var done := DoTask(Begin(st), task, oracle).st;
            var before := RowAt(st, task.slot);
            if before.Some? && before.value.status in {Sent, Skipped} then done == st
            else PostsAt(done, task.slot) == PostsAt(st, task.slot) + posts
                 && RowLeft(before, RowAt(done, task.slot), task, posts)
  {
  }

  /** In particular an owed message whose first request is accepted is on record as SENT. */
  lemma FirstReplySends(st: State, run: Run, task: Task)
    requires DistinctIds(run.certs) && task in WorkOf(run, task.slot.cert) && task.Deliver?
    requires Unhindered(WorkOf(run, task.slot.cert), run.oracle, task.slot)
    requires RowAt(st, task.slot).Some? ==> RowAt(st, task.slot).value.status == Error
    requires task.slot.channel == Email || run.settings.webhookAllowed
    requires run.oracle(task.slot, 0).Answer? && run.oracle(task.slot, 0).code < 400
    ensures var after := RowAt(Execute(st, run).st, task.slot);
            && after.Some? && after.value.status == Sent
            && PostsAt(Execute(st, run).st, task.slot) == PostsAt(st, task.slot) + [run.oracle(task.slot, 0)]
  {
    OneDelivery(st, run, task);
    var was, now := PostsAt(st, task.slot), PostsAt(Execute(st, run).st, task.slot);
    assert now == was + now[|was|..];
    OneRequest(now[|was|..], run.oracle, task.slot, Allowance(task.slot.channel, run.settings));
  }

  lemma OneRequest(posts: seq<Reply>, oracle: Oracle, slot: Slot, allowance: nat)
    requires RequestsOf(posts, oracle, slot, allowance) && allowance > 0
    requires oracle(slot, 0).Answer? && oracle(slot, 0).code < 400
    ensures posts == [oracle(slot, 0)]
  {
    assert posts[0] == oracle(slot, 0) && !TryAgain(posts[0]);
  }

  /** An overtaken threshold without a row gets one that says so; one with a row keeps it. */
  lemma OneMark(st: State, run: Run, task: Task)
    requires DistinctIds(run.certs) && task in WorkOf(run, task.slot.cert) && task.Mark?
    requires Unhindered(WorkOf(run, task.slot.cert), run.oracle, task.slot)
    ensures var before, after := RowAt(st, task.slot), RowAt(Execute(st, run).st, task.slot);
            && after == (if before.Some? then before else Some(Row(Skipped, task.threshold, [], 1)))
            && PostsAt(Execute(st, run).st, task.slot) == PostsAt(st, task.slot)
  {
    SlotInRun(st, run, task);
  }
}
