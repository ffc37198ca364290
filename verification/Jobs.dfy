/** The notifier and the two jobs, changing their tables in place. */
module Jobs {
  import opened Common
  import opened Model
  import opened Ledger

  /** The stored result of one run. */
  datatype JobRun = JobRun(checked: nat, sent: nat, failures: nat, ok: bool)

  /** What one channel's delivery reported, or that it raised something unexpected. */
  datatype Report = Reported(status: Status) | Raised

  /** `done` are the requests already made, `left` how many more there may be; together they are all of them. */
  ghost predicate Midway(done: seq<Reply>, oracle: Oracle, slot: Slot, attempt: nat, left: nat, all: seq<Reply>) {
    done + Posts(oracle, slot, attempt, left) == all
  }

  lemma OnePost(done: seq<Reply>, oracle: Oracle, slot: Slot, attempt: nat, left: nat, all: seq<Reply>)
    requires left > 0 && Midway(done, oracle, slot, attempt, left, all)
    ensures var response := oracle(slot, attempt);
            if Retryable(response) then Midway(done + [response], oracle, slot, attempt + 1, left - 1, all)
            else all == done + [response] && OutcomeOf(all) == (if Accepted(response) then Delivered
                                                              else if response.Unexpected? then Crashed else Refused)
  {
    var response := oracle(slot, attempt);
    if Retryable(response) {
      assert done + ([response] + Posts(oracle, slot, attempt + 1, left - 1))
          == (done + [response]) + Posts(oracle, slot, attempt + 1, left - 1);
    }
  }

  /** Posts a card, retrying what is worth retrying. */
  method PostCard(slot: Slot, maxAttempts: nat, oracle: Oracle) returns (posts: seq<Reply>, outcome: Outcome)
    ensures posts == Posts(oracle, slot, 0, maxAttempts)
    ensures outcome == OutcomeOf(posts)
  {
    ghost var all := Posts(oracle, slot, 0, maxAttempts);
    posts := [];
    var attempt := 0;
    while attempt < maxAttempts
      invariant attempt <= maxAttempts
      invariant Midway(posts, oracle, slot, attempt, maxAttempts - attempt, all)
      invariant posts != [] ==> Retryable(posts[|posts| - 1])
    {
      var response := oracle(slot, attempt);
      OnePost(posts, oracle, slot, attempt, maxAttempts - attempt, all);
      posts := posts + [response];
      if response.Unexpected? {
        return posts, Crashed;
      }
      if response.Answer? {
        if response.code < 400 {
          return posts, Delivered;
        }
        if response.code != 408 && response.code != 429 && response.code < 500 {
          break;
        }
      }
      attempt := attempt + 1;
    }
    return posts, Refused;
  }

  lemma {:induction false} RunTasksConcat(p: Progress, a: seq<Task>, b: seq<Task>, oracle: Oracle)
    ensures RunTasks(p, a + b, oracle) == RunTasks(RunTasks(p, a, oracle), b, oracle)
    decreases |a|
  {
    if a == [] {
      assert a + b == b;
    } else if !p.raised {
      assert (a + b)[1..] == a[1..] + b;
      RunTasksConcat(DoTask(p, a[0], oracle), a[1..], b, oracle);
    }
  }

  lemma NextGroup(t: Tally, run: Run, certs: seq<Cert>, i: nat)
    requires i < |certs|
    ensures RunGroups(t, GroupsFrom(run, certs[i..]), run.oracle)
            == RunGroups(RunGroup(t, TasksOf(run, certs[i]), run.oracle), GroupsFrom(run, certs[i + 1..]), run.oracle)
  {
    assert certs[i..][1..] == certs[i + 1..];
  }

  lemma NextMark(st: State, id: int, t: int, channels: seq<Channel>, j: nat, rest: seq<Task>, oracle: Oracle)
    requires j < |channels|
    ensures RunTasks(Begin(st), MarkEach(id, t, channels[j..]) + rest, oracle)
            == RunTasks(Begin(AddMark(st, Mark(Slot(id, channels[j], Threshold(t)), t))),
                        MarkEach(id, t, channels[j + 1..]) + rest, oracle)
  {
    var mark := Mark(Slot(id, channels[j], Threshold(t)), t);
    assert channels[j..][1..] == channels[j + 1..];
    var tasks := MarkEach(id, t, channels[j..]) + rest;
    assert tasks[0] == mark && tasks[1..] == MarkEach(id, t, channels[j + 1..]) + rest;
  }

  class Notifier {
    var log: map<Slot, Row>
    var outbox: map<Slot, seq<Reply>>

    constructor ()
      ensures Now() == State(map[], map[])
    {
      log, outbox := map[], map[];
    }

    ghost function Now(): State
      reads this
    {
      State(log, outbox)
    }

    method FindLog(slot: Slot) returns (row: Option<Row>)
      ensures row == RowAt(Now(), slot)
    {
      row := if slot in log then Some(log[slot]) else None;
    }

    method UpsertLog(existing: Option<Row>, task: Task, outcome: Outcome)
      requires task.Deliver?
      modifies this
      ensures Now() == WriteRow(old(Now()), task, existing, outcome)
    {
      var status := if outcome == Delivered then Sent else Error;
      if existing.None? {
        log := log[task.slot := Row(status, task.threshold, task.recipients, 1)];
      } else {
        var row := existing.value;
        log := log[task.slot := row.(status := status, recipients := task.recipients, attempts := row.attempts + 1)];
      }
    }

    /** A slot that is settled is left alone; otherwise one delivery is made and its outcome written down. */
    method Deliver(task: Task, oracle: Oracle, ghost p: Progress) returns (report: Report)
      requires task.Deliver? && p.st == Now() && !p.raised
      modifies this
      ensures var q := DoTask(p, task, oracle);
              && Now() == q.st
              && (report.Raised? <==> q.raised)
              && q.sent == p.sent + (if report == Reported(Sent) then 1 else 0)
              && q.errors == p.errors + (if report == Reported(Error) then 1 else 0)
    {
      var existing := FindLog(task.slot);
      if existing.Some? && existing.value.status == Sent {
        return Reported(Skipped);
      }
      if existing.Some? && existing.value.status == Skipped {
        return Reported(Skipped);
      }
      var posts, outcome := PostCard(task.slot, task.tries, oracle);
      outbox := outbox[task.slot := (if task.slot in outbox then outbox[task.slot] else []) + posts];
      if outcome == Crashed {
        return Raised;
      }
      UpsertLog(existing, task, outcome);
      return Reported(if outcome == Delivered then Sent else Error);
    }

    /** Every overtaken threshold gets a skipped row on each channel, unless it has a row already. */
    method MarkSuperseded(id: int, thresholds: seq<int>, channels: seq<Channel>, oracle: Oracle)
      modifies this
      ensures RunTasks(Begin(old(Now())), Marks(id, thresholds, channels), oracle) == Begin(Now())
    {
      ghost var goal := RunTasks(Begin(Now()), Marks(id, thresholds, channels), oracle);
      for i := 0 to |thresholds|
        invariant RunTasks(Begin(Now()), Marks(id, thresholds[i..], channels), oracle) == goal
      {
        var t := thresholds[i];
        ghost var rest := Marks(id, thresholds[i + 1..], channels);
        assert thresholds[i..][1..] == thresholds[i + 1..] && channels[0..] == channels;
        for j := 0 to |channels|
          invariant RunTasks(Begin(Now()), MarkEach(id, t, channels[j..]) + rest, oracle) == goal
        {
          var slot := Slot(id, channels[j], Threshold(t));
          NextMark(Now(), id, t, channels, j, rest, oracle);
          var existing := FindLog(slot);
          if existing.None? {
            log := log[slot := Row(Skipped, t, [], 1)];
          }
        }
        assert MarkEach(id, t, channels[|channels|..]) + rest == rest;
      }
    }

    /**
     * What one certificate is owed, email before Teams, with the reports counted;
     * an unexpected exception ends it there.
     */
    method NotifyExpiry(cert: Cert, threshold: int, key: Key, settings: Settings, channels: seq<Channel>,
        oracle: Oracle)
      returns (sent: nat, errors: nat, raised: bool)
      modifies this
      ensures Progress(Now(), sent, errors, raised)
              == RunTasks(Begin(old(Now())), Deliveries(cert, threshold, key, settings, channels), oracle)
    {
      sent, errors, raised := 0, 0, false;
      var recipients := RecipientsFor(cert, settings);
      ghost var start := Begin(Now());
      ghost var owed := Deliveries(cert, threshold, key, settings, channels);
      if Email in channels && recipients != [] && settings.emailConfigured {
        var task := Task.Deliver(Slot(cert.id, Email, key), threshold, recipients, 1);
        var report := Deliver(task, oracle, start);
        assert owed[0] == task;
        if report.Raised? {
          return 0, 0, true;
        }
        sent := if report == Reported(Sent) then 1 else 0;
        errors := if report == Reported(Error) then 1 else 0;
      }
      ghost var mid := Progress(Now(), sent, errors, false);
      if Teams in channels && settings.teamsWebhook != "" {
        var task := Task.Deliver(Slot(cert.id, Teams, key), threshold, [], TeamsTries(settings));
        var report := Deliver(task, oracle, mid);
        assert RunTasks(mid, [task], oracle) == DoTask(mid, task, oracle);
        if report.Raised? {
          return sent, errors, true;
        }
        sent := sent + if report == Reported(Sent) then 1 else 0;
        errors := errors + if report == Reported(Error) then 1 else 0;
      }
    }

    /** Note what was overtaken, then tell the channels this is due on. */
    method NotifyDue(cert: Cert, due: Due, settings: Settings, channels: seq<Channel>, oracle: Oracle)
      returns (sent: nat, errors: nat, raised: bool)
      requires channels == ChannelsFor(settings)
      modifies this
      ensures Progress(Now(), sent, errors, raised)
          == RunTasks(Begin(old(Now())), DueTasks(cert, due, settings), oracle)
    {
      var dueChannels := if due.days < 0 && settings.expiredTeamsEveryHours != 0
      then Filter(channels, c => c != Teams) else channels;
      assert dueChannels == DueChannels(due, settings);
      RunTasksConcat(Begin(Now()), Marks(cert.id, due.superseded, channels),
                     Deliveries(cert, due.threshold, due.key, settings, dueChannels), oracle);
      if due.superseded != [] {
        MarkSuperseded(cert.id, due.superseded, channels, oracle);
      }
      sent, errors, raised := NotifyExpiry(cert, due.threshold, due.key, settings, dueChannels, oracle);
    }

    /** One pass of the daily loop; an exception counts as one failure and hides the certificate's reports. */
    method DailyPass(cert: Cert, settings: Settings, today: int, channels: seq<Channel>, oracle: Oracle, sent: nat,
        failures: nat,
                     ghost plan: Run)
      returns (sent': nat, failures': nat)
      requires plan.Daily? && plan.settings == settings && plan.today == today && plan.oracle == oracle
      requires channels == ChannelsFor(settings) && cert.status == Active && !cert.muted
      modifies this
      ensures Tally(Now(), sent', failures')
              == RunGroup(Tally(old(Now()), sent, failures), TasksOf(plan, cert), plan.oracle)
    {
      sent', failures' := sent, failures;
      var due := PlanFor(cert, cert.Thresholds(settings), today, settings.notifyWhenExpired);
      if due.None? {
        assert TasksOf(plan, cert) == [];
        return;
      }
      var s, e, raised := NotifyDue(cert, due.value, settings, channels, oracle);
      assert TasksOf(plan, cert) == DueTasks(cert, due.value, settings);
      if raised {
        failures' := failures + 1;
      } else {
        sent' := sent + s;
        failures' := failures + e;
      }
    }

    /** One pass over the board on a given day. */
    method RunDailyJob(certs: seq<Cert>, settings: Settings, today: int, oracle: Oracle) returns (run: JobRun)
      modifies this
      ensures var t := Execute(old(Now()), Daily(certs, settings, today, oracle));
              && Now() == t.st
              && run.sent == t.sent && run.failures == t.failures && (run.ok <==> t.failures == 0)
              && run.checked == |Eligible(certs)|
    {
      var channels := [Email];
      if settings.teamsWebhook != "" {
        channels := channels + [Teams];
      }
      var certificates := Eligible(certs);
      ghost var plan := Daily(certs, settings, today, oracle);
      EligibleGroups(Tally(Now(), 0, 0), plan, certs);
      var sent, failures := DailyPasses(certificates, settings, today, channels, oracle, plan);
      run := JobRun(|certificates|, sent, failures, failures == 0);
    }

    /** The loop of the daily job over the certificates it looks at. */
    method DailyPasses(certificates: seq<Cert>, settings: Settings, today: int, channels: seq<Channel>,
        oracle: Oracle, ghost plan: Run)
      returns (sent: nat, failures: nat)
      requires plan.Daily? && plan.settings == settings && plan.today == today && plan.oracle == oracle
      requires channels == ChannelsFor(settings)
      requires forall c :: c in certificates ==> c.status == Active && !c.muted
      modifies this
      ensures Tally(Now(), sent, failures)
              == RunGroups(Tally(old(Now()), 0, 0), GroupsFrom(plan, certificates), plan.oracle)
    {
      sent, failures := 0, 0;
      ghost var goal := RunGroups(Tally(Now(), 0, 0), GroupsFrom(plan, certificates), plan.oracle);
      assert certificates[0..] == certificates;
      for i := 0 to |certificates|
        invariant RunGroups(Tally(Now(), sent, failures), GroupsFrom(plan, certificates[i..]), plan.oracle) == goal
      {
        NextGroup(Tally(Now(), sent, failures), plan, certificates, i);
        sent, failures := DailyPass(certificates[i], settings, today, channels, oracle, sent, failures, plan);
      }
      assert certificates[|certificates|..] == [];
    }

    method EscalationPass(cert: Cert, settings: Settings, key: Key, oracle: Oracle, sent: nat, failures: nat)
      returns (sent': nat, failures': nat)
      modifies this
      ensures Tally(Now(), sent', failures')
              == RunGroup(Tally(old(Now()), sent, failures),
                          Deliveries(cert, EXPIRED_DAILY_THRESHOLD, key, settings, [Teams]), oracle)
    {
      var s, e, raised := NotifyExpiry(cert, EXPIRED_DAILY_THRESHOLD, key, settings, [Teams], oracle);
      sent' := if raised then sent else sent + s;
      failures' := if raised then failures + 1 else failures + e;
    }

    /** One hourly pass: a card for each expired certificate whose slot of the day has none yet. */
    method RunExpiryEscalation(certs: seq<Cert>, settings: Settings, day: int, hour: nat,
        oracle: Oracle) returns (run: JobRun)
      modifies this
      ensures var t := Execute(old(Now()), Escalation(certs, settings, day, hour, oracle));
              && Now() == t.st
              && run.sent == t.sent && run.failures == t.failures && (run.ok <==> t.failures == 0)
      ensures run.checked
          == if Escalates(settings) then |Filter(Eligible(certs), (c: Cert) => c.DaysLeft(day) < 0)| else 0
    {
      var sent: nat, failures: nat := 0, 0;
      var expired: seq<Cert> := [];
      ghost var plan := Escalation(certs, settings, day, hour, oracle);
      ghost var goal := Execute(Now(), plan);
      var everyHours := settings.expiredTeamsEveryHours;
      EligibleGroups(Tally(Now(), 0, 0), plan, certs);
      if everyHours != 0 && settings.teamsWebhook != "" {
        expired := Filter(Eligible(certs), (c: Cert) => c.DaysLeft(day) < 0);
        ExpiredGroups(Tally(Now(), 0, 0), plan, Eligible(certs));
        var key := ExpiredSlot(day, Bucket(hour, everyHours));
        assert expired[0..] == expired;
        for i := 0 to |expired|
          invariant RunGroups(Tally(Now(), sent, failures), GroupsFrom(plan, expired[i..]), plan.oracle) == goal
        {
          assert expired[i] in expired && expired[i] in Eligible(certs);
          NextGroup(Tally(Now(), sent, failures), plan, expired, i);
          sent, failures := EscalationPass(expired[i], settings, key, oracle, sent, failures);
        }
      } else {
        IdleGroups(Tally(Now(), 0, 0), plan, certs);
      }
      run := JobRun(|expired|, sent, failures, failures == 0);
    }
  }

  /** `active_for_notifications`: active, unmuted records in the order of the query. */
  function Eligible(certs: seq<Cert>): (r: seq<Cert>)
    ensures forall c :: c in r <==> c in certs && c.status == Active && !c.muted
  {
    Filter(certs, (c: Cert) => c.status == Active && !c.muted)
  }

  lemma {:induction false} EligibleGroups(t: Tally, run: Run, certs: seq<Cert>)
    ensures RunGroups(t, GroupsFrom(run, certs), run.oracle)
        == RunGroups(t, GroupsFrom(run, Eligible(certs)), run.oracle)
    decreases |certs|
  {
    if certs != [] {
      var t1 := RunGroup(t, TasksOf(run, certs[0]), run.oracle);
      EligibleGroups(t1, run, certs[1..]);
      if certs[0].status == Active && !certs[0].muted {
        assert Eligible(certs) == [certs[0]] + Eligible(certs[1..]);
      } else {
        assert Eligible(certs) == Eligible(certs[1..]);
        assert t1 == t;
      }
    }
  }

  lemma {:induction false} ExpiredGroups(t: Tally, run: Run, certs: seq<Cert>)
    requires run.Escalation?
    ensures RunGroups(t, GroupsFrom(run, certs), run.oracle)
            == RunGroups(t, GroupsFrom(run, Filter(certs, (c: Cert) => c.DaysLeft(run.today) < 0)), run.oracle)
    decreases |certs|
  {
    if certs != [] {
      var late := (c: Cert) => c.DaysLeft(run.today) < 0;
      var t1 := RunGroup(t, TasksOf(run, certs[0]), run.oracle);
      ExpiredGroups(t1, run, certs[1..]);
      if late(certs[0]) {
        assert Filter(certs, late) == [certs[0]] + Filter(certs[1..], late);
      } else {
        assert Filter(certs, late) == Filter(certs[1..], late);
        assert t1 == t;
      }
    }
  }

  lemma {:induction false} IdleGroups(t: Tally, run: Run, certs: seq<Cert>)
    requires run.Escalation? && !Escalates(run.settings)
    ensures RunGroups(t, GroupsFrom(run, certs), run.oracle) == t
    decreases |certs|
  {
    if certs != [] {
      assert RunGroup(t, TasksOf(run, certs[0]), run.oracle) == t;
      IdleGroups(t, run, certs[1..]);
    }
  }
}
