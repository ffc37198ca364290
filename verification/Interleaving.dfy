/**
 * The two jobs share an event loop: between the check, the send and the write of
 * one delivery, the other job may run. This is the small-step form.
 */
module Interleaving {
  import opened Common
  import opened Model
  import opened Ledger
  import opened Isolation
  import opened History

  /** Where a job stands inside its current delivery; `existing` is the row it looked up, which may since be stale. */
  datatype Phase = Idle | Checked(existing: Option<Row>) | Answered(existing: Option<Row>, outcome: Outcome)

  /** The work a job still has to do, certificate by certificate. */
  datatype Job = Job(groups: seq<seq<Task>>, phase: Phase)

  predicate WellFormed(job: Job) {
    job.phase != Idle ==> job.groups != [] && job.groups[0] != [] && job.groups[0][0].Deliver?
  }

  function NextTask(job: Job): Job
    requires job.groups != [] && job.groups[0] != []
  {
    Job([job.groups[0][1..]] + job.groups[1..], Idle)
  }

  function NextGroup(job: Job): Job
    requires job.groups != []
  {
    Job(job.groups[1..], Idle)
  }

  /** One atomic step: a mark, a check, a send or a write. */
  function Step(st: State, job: Job, oracle: Oracle): (r: (State, Job))
    requires WellFormed(job) && job.groups != []
    ensures WellFormed(r.1)
  {
    if job.groups[0] == [] then (st, NextGroup(job))
    else
      var task := job.groups[0][0];
      if task.Mark? then (AddMark(st, task), NextTask(job))
      else
        match job.phase
        case Idle =>
          if Final(RowAt(st, task.slot)) then (st, NextTask(job))
          else (st, job.(phase := Checked(RowAt(st, task.slot))))
        case Checked(existing) =>
          var posts := Posts(oracle, task.slot, 0, task.tries);
          (AddPosts(st, task.slot, posts),
           if OutcomeOf(posts) == Crashed then NextGroup(job)
           else job.(phase := Answered(existing, OutcomeOf(posts))))
        case Answered(existing, outcome) => (WriteRow(st, task, existing, outcome), NextTask(job))
  }

  function TaskTotal(groups: seq<seq<Task>>): nat {
    if groups == [] then 0 else |groups[0]| + TaskTotal(groups[1..])
  }

  /** Steps a job can still take at most. */
  function Remaining(job: Job): nat
    requires WellFormed(job)
  {
    3 * TaskTotal(job.groups) + |job.groups|
    - (match job.phase case Idle => 0 case Checked(_) => 1 case Answered(_, _) => 2)
  }

  /** A job left to itself. */
  function Finish(st: State, job: Job, oracle: Oracle): State
    requires WellFormed(job)
    decreases Remaining(job)
  {
    if job.groups == [] then st
    else
      var (st', job') := Step(st, job, oracle);
      Finish(st', job', oracle)
  }

  // ---------------------------------------------------------------- alone, small steps are the big step

  lemma {:induction false} FinishGroup(p: Progress, tasks: seq<Task>, rest: seq<seq<Task>>, oracle: Oracle)
    requires !p.raised
    ensures Finish(p.st, Job([tasks] + rest, Idle), oracle)
            == Finish(RunTasks(p, tasks, oracle).st, Job(rest, Idle), oracle)
    decreases |tasks|
  {
    var job := Job([tasks] + rest, Idle);
    if tasks == [] {
      assert NextGroup(job) == Job(rest, Idle);
    } else {
      var task := tasks[0];
      var q := DoTask(p, task, oracle);
      assert NextTask(job) == Job([tasks[1..]] + rest, Idle);
      if task.Deliver? && !Final(RowAt(p.st, task.slot)) {
        var checked := job.(phase := Checked(RowAt(p.st, task.slot)));
        var sent := Step(p.st, checked, oracle);
        assert Finish(p.st, job, oracle) == Finish(p.st, checked, oracle) == Finish(sent.0, sent.1, oracle);
        assert NextTask(checked) == NextTask(job) && NextGroup(checked) == Job(rest, Idle);
        if !q.raised {
          assert NextTask(sent.1) == NextTask(job);
          assert Finish(sent.0, sent.1, oracle) == Finish(q.st, NextTask(job), oracle);
        }
      }
      if !q.raised { FinishGroup(q, tasks[1..], rest, oracle); }
    }
  }

  /** Left to itself, the stepwise job does exactly what the run is specified to do. */
  lemma {:induction false} FinishIsRun(t: Tally, groups: seq<seq<Task>>, oracle: Oracle)
    ensures Finish(t.st, Job(groups, Idle), oracle) == RunGroups(t, groups, oracle).st
    decreases |groups|
  {
    if groups != [] {
      assert groups == [groups[0]] + groups[1..];
      FinishGroup(Begin(t.st), groups[0], groups[1..], oracle);
      FinishIsRun(RunGroup(t, groups[0], oracle), groups[1..], oracle);
    }
  }

  // ---------------------------------------------------------------- jobs with different rows commute

  /** What one step writes: nothing, a row, or a slot's requests. */
  datatype Effect = Nothing | PutRow(row: Row) | PutPosts(posts: seq<Reply>)

  function With(st: State, slot: Slot, effect: Effect): State {
    match effect
    case Nothing => st
    case PutRow(row) => st.(log := st.log[slot := row])
    case PutPosts(posts) => st.(outbox := st.outbox[slot := posts])
  }

  ghost predicate Avoids(job: Job, slot: Slot) {
    forall g, task :: g in job.groups && task in g ==> task.slot != slot
  }

  function StepEffect(st: State, job: Job, oracle: Oracle): Effect
    requires WellFormed(job) && job.groups != [] && job.groups[0] != []
  {
    var task := job.groups[0][0];
    if task.Mark? then (if task.slot in st.log then Nothing else PutRow(Row(Skipped, task.threshold, [], 1)))
    else match job.phase
      case Idle => Nothing
      case Checked(_) => PutPosts(PostsAt(st, task.slot) + Posts(oracle, task.slot, 0, task.tries))
      case Answered(existing, outcome) => PutRow(Upsert(existing, task, outcome))
  }

  /** A step reads and writes its own slot only. */
  lemma StepLocal(st: State, st': State, job: Job, oracle: Oracle)
    requires WellFormed(job) && job.groups != [] && job.groups[0] != []
    requires RowAt(st, job.groups[0][0].slot) == RowAt(st', job.groups[0][0].slot)
    requires PostsAt(st, job.groups[0][0].slot) == PostsAt(st', job.groups[0][0].slot)
    ensures StepEffect(st, job, oracle) == StepEffect(st', job, oracle)
    ensures Step(st, job, oracle).0 == With(st, job.groups[0][0].slot, StepEffect(st, job, oracle))
    ensures Step(st, job, oracle).1 == Step(st', job, oracle).1
  {
    var task := job.groups[0][0];
    assert task.slot in st.log <==> task.slot in st'.log;
  }

  lemma WithOther(st: State, a: Slot, x: Effect, b: Slot, y: Effect)
    requires a != b
    ensures With(With(st, a, x), b, y) == With(With(st, b, y), a, x)
    ensures RowAt(With(st, a, x), b) == RowAt(st, b) && PostsAt(With(st, a, x), b) == PostsAt(st, b)
  {
    if x.PutRow? && y.PutRow? { assert st.log[a := x.row][b := y.row] == st.log[b := y.row][a := x.row]; }
    if x.PutPosts? && y.PutPosts? {
      assert st.outbox[a := x.posts][b := y.posts] == st.outbox[b := y.posts][a := x.posts];
    }
  }

  lemma StepAvoids(st: State, job: Job, oracle: Oracle, slot: Slot)
    requires WellFormed(job) && job.groups != [] && Avoids(job, slot)
    ensures Avoids(Step(st, job, oracle).1, slot)
  {
    var job' := Step(st, job, oracle).1;
    forall g, task | g in job'.groups && task in g ensures task.slot != slot {
      if g !in job.groups {
        assert job.groups[0] in job.groups;
        assert g == job.groups[0][1..];
        assert task in job.groups[0];
      }
    }
  }

  /** A job does not notice, and does not disturb, what happens to a slot it never names. */
  lemma {:induction false} FinishFrame(st: State, job: Job, oracle: Oracle, slot: Slot, effect: Effect)
    requires WellFormed(job) && Avoids(job, slot)
    ensures Finish(With(st, slot, effect), job, oracle) == With(Finish(st, job, oracle), slot, effect)
    ensures RowAt(Finish(st, job, oracle), slot) == RowAt(st, slot)
    ensures PostsAt(Finish(st, job, oracle), slot) == PostsAt(st, slot)
    decreases Remaining(job)
  {
    if job.groups != [] {
      var (st', job') := Step(st, job, oracle);
      StepAvoids(st, job, oracle, slot);
      if job.groups[0] != [] {
        var own := job.groups[0][0].slot;
        assert job.groups[0] in job.groups && job.groups[0][0] in job.groups[0];
        WithOther(st, slot, effect, own, StepEffect(st, job, oracle));
        WithOther(st, own, StepEffect(st, job, oracle), slot, effect);
        StepLocal(st, With(st, slot, effect), job, oracle);
        StepLocal(With(st, slot, effect), st, job, oracle);
      }
      FinishFrame(st', job', oracle, slot, effect);
    }
  }

  ghost predicate Disjoint(a: Job, b: Job) {
    forall g, task :: g in b.groups && task in g ==> Avoids(a, task.slot)
  }

  /** Letting `b` take a step before `a` finishes comes to the same as after. */
  lemma StepAfterFinish(st: State, a: Job, b: Job, oa: Oracle, ob: Oracle)
    requires WellFormed(a) && WellFormed(b) && Disjoint(a, b) && b.groups != []
    ensures var (st', b') := Step(st, b, ob);
            Step(Finish(st, a, oa), b, ob) == (Finish(st', a, oa), b')
  {
    if b.groups[0] != [] {
      var slot := b.groups[0][0].slot;
      assert b.groups[0] in b.groups && b.groups[0][0] in b.groups[0];
      var effect := StepEffect(st, b, ob);
      FinishFrame(st, a, oa, slot, effect);
      StepLocal(st, Finish(st, a, oa), b, ob);
      StepLocal(Finish(st, a, oa), st, b, ob);
    }
  }

  /** The hourly runs that come due meanwhile, one after the other, each with the replies it will get. */
  datatype Turn = Turn(job: Job, oracle: Oracle)

  ghost predicate AllWellFormed(turns: seq<Turn>) { forall i :: 0 <= i < |turns| ==> WellFormed(turns[i].job) }

  ghost predicate AllDisjoint(a: Job, turns: seq<Turn>) { forall i :: 0 <= i < |turns| ==> Disjoint(a, turns[i].job) }

  /**
   * A job and a queue of others sharing the loop; `schedule` says who moves next.
   * A finished job's turns are idle, and when the first of the queue has nothing
   * left to do the next one starts.
   */
  ghost function Together(st: State, a: Job, oracle: Oracle, turns: seq<Turn>, schedule: seq<bool>)
      : (r: (State, Job, seq<Turn>))
    requires WellFormed(a) && AllWellFormed(turns)
    ensures WellFormed(r.1) && AllWellFormed(r.2)
    decreases |schedule|
  {
    if schedule == [] then (st, a, turns)
    else if schedule[0] then
      if a.groups == [] then Together(st, a, oracle, turns, schedule[1..])
      else var (st', a') := Step(st, a, oracle); Together(st', a', oracle, turns, schedule[1..])
    else if turns == [] then Together(st, a, oracle, turns, schedule[1..])
    else if turns[0].job.groups == [] then Together(st, a, oracle, turns[1..], schedule[1..])
    else
      var (st', b) := Step(st, turns[0].job, turns[0].oracle);
      Together(st', a, oracle, [Turn(b, turns[0].oracle)] + turns[1..], schedule[1..])
  }

  /** The queue left to itself. */
  ghost function FinishAll(st: State, turns: seq<Turn>): State
    requires AllWellFormed(turns)
    decreases |turns|
  {
    if turns == [] then st else FinishAll(Finish(st, turns[0].job, turns[0].oracle), turns[1..])
  }

  lemma StepDisjoint(st: State, a: Job, b: Job, oracle: Oracle)
    requires WellFormed(a) && WellFormed(b) && Disjoint(a, b)
    ensures a.groups != [] ==> Disjoint(Step(st, a, oracle).1, b)
    ensures b.groups != [] ==> Disjoint(a, Step(st, b, oracle).1)
  {
    if a.groups != [] {
      forall g, task | g in b.groups && task in g ensures Avoids(Step(st, a, oracle).1, task.slot) {
        StepAvoids(st, a, oracle, task.slot);
      }
    }
    if b.groups != [] {
      var b' := Step(st, b, oracle).1;
      forall g, task | g in b'.groups && task in g ensures Avoids(a, task.slot) {
        if g !in b.groups {
          assert b.groups[0] in b.groups;
          assert g == b.groups[0][1..];
          assert task in b.groups[0];
        }
      }
    }
  }

  /** The queue takes a step: what finishing everything comes to stays the same. */
  lemma TurnStep(st: State, a: Job, oracle: Oracle, turns: seq<Turn>)
    requires WellFormed(a) && AllWellFormed(turns) && AllDisjoint(a, turns)
    requires turns != [] && turns[0].job.groups != []
    ensures var (st', b) := Step(st, turns[0].job, turns[0].oracle);
            var turns' := [Turn(b, turns[0].oracle)] + turns[1..];
            && AllWellFormed(turns') && AllDisjoint(a, turns')
            && FinishAll(Finish(st', a, oracle), turns') == FinishAll(Finish(st, a, oracle), turns)
  {
    var head := turns[0];
    StepDisjoint(st, a, head.job, head.oracle);
    StepAfterFinish(st, a, head.job, oracle, head.oracle);
    var (st', b) := Step(st, head.job, head.oracle);
    var turns' := [Turn(b, head.oracle)] + turns[1..];
    assert turns'[1..] == turns[1..];
  }

  lemma {:induction false} AnySchedule(st: State, a: Job, oracle: Oracle, turns: seq<Turn>, schedule: seq<bool>)
    requires WellFormed(a) && AllWellFormed(turns) && AllDisjoint(a, turns)
    ensures var (st', a', turns') := Together(st, a, oracle, turns, schedule);
            FinishAll(Finish(st', a', oracle), turns') == FinishAll(Finish(st, a, oracle), turns)
    decreases |schedule|
  {
    if schedule != [] {
      if schedule[0] && a.groups != [] {
        forall i | 0 <= i < |turns| ensures Disjoint(Step(st, a, oracle).1, turns[i].job) {
          StepDisjoint(st, a, turns[i].job, oracle);
        }
        var (st', a') := Step(st, a, oracle);
        AnySchedule(st', a', oracle, turns, schedule[1..]);
      } else if !schedule[0] && turns != [] && turns[0].job.groups != [] {
        TurnStep(st, a, oracle, turns);
        var (st', b) := Step(st, turns[0].job, turns[0].oracle);
        AnySchedule(st', a, oracle, [Turn(b, turns[0].oracle)] + turns[1..], schedule[1..]);
      } else if !schedule[0] && turns != [] {
        AnySchedule(st, a, oracle, turns[1..], schedule[1..]);
      } else {
        AnySchedule(st, a, oracle, turns, schedule[1..]);
      }
    }
  }

  // ---------------------------------------------------------------- the daily job against the escalation

  lemma {:induction false} GroupTasks(run: Run, certs: seq<Cert>, g: seq<Task>)
    requires g in GroupsFrom(run, certs)
    ensures exists cert :: cert in certs && g == TasksOf(run, cert)
  {
    if g == TasksOf(run, certs[0]) {
      assert certs[0] in certs;
    } else {
      GroupTasks(run, certs[1..], g);
      var cert :| cert in certs[1..] && g == TasksOf(run, cert);
      assert cert in certs;
    }
  }

  lemma KeyKinds(run: Run, cert: Cert)
    ensures forall task :: task in TasksOf(run, cert) ==> (task.slot.key.ExpiredSlot? <==> run.Escalation?)
  {
    match run
    case Daily(_, settings, today, _) =>
      var plan := PlanFor(cert, cert.Thresholds(settings), today, settings.notifyWhenExpired);
      if plan.Some? {
        MarksTasks(cert.id, plan.value.superseded, ChannelsFor(settings));
        DeliveriesDistinct(cert, plan.value.threshold, plan.value.key, settings, DueChannels(plan.value, settings));
      }
    case Escalation(_, settings, today, hour, _) =>
      DeliveriesDistinct(cert, EXPIRED_DAILY_THRESHOLD,
                         ExpiredSlot(today, Bucket(hour, settings.expiredTeamsEveryHours)), settings, [Teams]);
  }

  function JobOf(run: Run): Job { Job(GroupsFrom(run, run.certs), Idle) }

  /** Whatever certificates, settings and dates the two runs use, their rows never coincide. */
  lemma RowsNeverMeet(daily: Run, hourly: Run)
    requires daily.Daily? && hourly.Escalation?
    ensures Disjoint(JobOf(daily), JobOf(hourly))
  {
    forall g, task | g in JobOf(hourly).groups && task in g ensures Avoids(JobOf(daily), task.slot) {
      GroupTasks(hourly, hourly.certs, g);
      var cert :| cert in hourly.certs && g == TasksOf(hourly, cert);
      KeyKinds(hourly, cert);
      forall h, other | h in JobOf(daily).groups && other in h ensures other.slot != task.slot {
        GroupTasks(daily, daily.certs, h);
        var cert' :| cert' in daily.certs && h == TasksOf(daily, cert');
        KeyKinds(daily, cert');
      }
    }
  }

  lemma {:induction false} EitherOrder(st: State, a: Job, b: Job, oa: Oracle, ob: Oracle)
    requires WellFormed(a) && WellFormed(b) && Disjoint(a, b)
    ensures Finish(Finish(st, a, oa), b, ob) == Finish(Finish(st, b, ob), a, oa)
    decreases Remaining(b)
  {
    if b.groups != [] {
      StepAfterFinish(st, a, b, oa, ob);
      StepDisjoint(st, a, b, ob);
      var (st', b') := Step(st, b, ob);
      EitherOrder(st', a, b', oa, ob);
    }
  }

  lemma {:induction false} QueueEitherOrder(st: State, a: Job, oracle: Oracle, turns: seq<Turn>)
    requires WellFormed(a) && AllWellFormed(turns) && AllDisjoint(a, turns)
    ensures FinishAll(Finish(st, a, oracle), turns) == Finish(FinishAll(st, turns), a, oracle)
    decreases |turns|
  {
    if turns != [] {
      EitherOrder(st, a, turns[0].job, oracle, turns[0].oracle);
      QueueEitherOrder(Finish(st, turns[0].job, turns[0].oracle), a, oracle, turns[1..]);
    }
  }

  function TurnsOf(runs: seq<Run>): (r: seq<Turn>)
    ensures |r| == |runs| && forall i :: 0 <= i < |runs| ==> r[i] == Turn(JobOf(runs[i]), runs[i].oracle)
  {
    if runs == [] then [] else [Turn(JobOf(runs[0]), runs[0].oracle)] + TurnsOf(runs[1..])
  }

  lemma {:induction false} AfterFirst(st: State, runs: seq<Run>)
    requires runs != []
    ensures After(st, runs) == After(Execute(st, runs[0]).st, runs[1..])
    decreases |runs|
  {
    var n := |runs| - 1;
    if n > 0 {
      AfterFirst(st, runs[..n]);
      assert runs[..n][1..] == runs[1..][..n - 1];
    }
  }

  lemma {:induction false} QueueIsHistory(st: State, runs: seq<Run>)
    ensures FinishAll(st, TurnsOf(runs)) == After(st, runs)
    decreases |runs|
  {
    if runs != [] {
      FinishIsRun(Tally(st, 0, 0), GroupsFrom(runs[0], runs[0].certs), runs[0].oracle);
      AfterFirst(st, runs);
      QueueIsHistory(Execute(st, runs[0]).st, runs[1..]);
    }
  }

  /** How many turns are enough for everybody to finish. */
  ghost function TurnsLeft(a: Job, turns: seq<Turn>): nat
    requires WellFormed(a) && AllWellFormed(turns)
    decreases |turns|
  {
    if turns == [] then Remaining(a) else Remaining(turns[0].job) + 1 + TurnsLeft(a, turns[1..])
  }

  /** Wherever the jobs stand, there is a way to go on until all are done. */
  lemma {:induction false} AllCanFinish(st: State, a: Job, oracle: Oracle, turns: seq<Turn>)
    returns (schedule: seq<bool>)
    requires WellFormed(a) && AllWellFormed(turns)
    ensures var r := Together(st, a, oracle, turns, schedule); r.1.groups == [] && r.2 == []
    decreases TurnsLeft(a, turns)
  {
    if turns != [] {
      var head := turns[0];
      if head.job.groups == [] {
        var rest := AllCanFinish(st, a, oracle, turns[1..]);
        schedule := [false] + rest;
      } else {
        var (st', b) := Step(st, head.job, head.oracle);
        var turns' := [Turn(b, head.oracle)] + turns[1..];
        assert turns'[1..] == turns[1..];
        var rest := AllCanFinish(st', a, oracle, turns');
        schedule := [false] + rest;
      }
    } else if a.groups != [] {
      var (st', a') := Step(st, a, oracle);
      var rest := AllCanFinish(st', a', oracle, turns);
      schedule := [true] + rest;
    } else {
      schedule := [];
    }
  }

  /**
   * However a daily run interleaves, step by step, with the escalation runs that
   * come due while it lasts, once all are done the log and the outbox are what
   * running them one after the other gives, and it does not matter whether the
   * daily run goes first or last.
   */
  lemma InterleavingIsSequential(st: State, daily: Run, hourly: seq<Run>, schedule: seq<bool>)
    requires daily.Daily? && forall i :: 0 <= i < |hourly| ==> hourly[i].Escalation?
    ensures var (st', a, turns) := Together(st, JobOf(daily), daily.oracle, TurnsOf(hourly), schedule);
            a.groups == [] && turns == [] ==> st' == After(Execute(st, daily).st, hourly)
    ensures After(Execute(st, daily).st, hourly) == Execute(After(st, hourly), daily).st
  {
    var a, turns := JobOf(daily), TurnsOf(hourly);
    forall i | 0 <= i < |turns| ensures Disjoint(a, turns[i].job) { RowsNeverMeet(daily, hourly[i]); }
    AnySchedule(st, a, daily.oracle, turns, schedule);
    FinishIsRun(Tally(st, 0, 0), GroupsFrom(daily, daily.certs), daily.oracle);
    QueueIsHistory(Execute(st, daily).st, hourly);
    QueueEitherOrder(st, a, daily.oracle, turns);
    QueueIsHistory(st, hourly);
    FinishIsRun(Tally(After(st, hourly), 0, 0), GroupsFrom(daily, daily.certs), daily.oracle);
  }
}
