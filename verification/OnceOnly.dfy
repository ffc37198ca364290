/** Exactly-once: what every task, run and history keeps. */
module OnceOnly {
  import opened Common
  import opened Model
  import opened Ledger

  // ---------------------------------------------------------------- the retry loop

  /**
   * At most `left` posts; every post but the last met a retryable reply, and the loop stops
   * early only on another kind.
   */
  lemma {:induction false} RetryLoop(oracle: Oracle, slot: Slot, attempt: nat, left: nat)
    ensures var posts := Posts(oracle, slot, attempt, left);
            && |posts| <= left
            && (left > 0 ==> posts != [])
            && (forall k :: 0 <= k < |posts| ==> posts[k] == oracle(slot, attempt + k))
            && (forall k :: 0 <= k < |posts| - 1 ==> Retryable(posts[k]))
            && (0 < |posts| < left ==> !Retryable(posts[|posts| - 1]))
    decreases left
  {
    if left > 0 && Retryable(oracle(slot, attempt)) {
      RetryLoop(oracle, slot, attempt + 1, left - 1);
      var rest := Posts(oracle, slot, attempt + 1, left - 1);
      assert forall k :: 0 < k < |rest| + 1 ==> ([oracle(slot, attempt)] + rest)[k] == rest[k - 1];
    }
  }

  lemma {:induction false} NoneAccepted(posts: seq<Reply>)
    requires forall k :: 0 <= k < |posts| ==> !Accepted(posts[k])
    ensures AcceptedCount(posts) == 0
  {
    if posts != [] { NoneAccepted(posts[..|posts| - 1]); }
  }

  /** A delivery gets one accepted reply exactly when it reports success, and none otherwise. */
  lemma DeliveryCount(oracle: Oracle, slot: Slot, left: nat)
    ensures var posts := Posts(oracle, slot, 0, left);
            AcceptedCount(posts) == if OutcomeOf(posts) == Delivered then 1 else 0
  {
    var posts := Posts(oracle, slot, 0, left);
    RetryLoop(oracle, slot, 0, left);
    if posts != [] { NoneAccepted(posts[..|posts| - 1]); }
  }

  lemma {:induction false} CountAppend(a: seq<Reply>, b: seq<Reply>)
    ensures AcceptedCount(a + b) == AcceptedCount(a) + AcceptedCount(b)
  {
    if b == [] {
      assert a + b == a;
    } else {
      CountAppend(a, b[..|b| - 1]);
      assert (a + b)[..|a + b| - 1] == a + b[..|b| - 1];
    }
  }

  // ---------------------------------------------------------------- the invariant

  predicate IsSent(st: State, slot: Slot) {
    RowAt(st, slot).Some? && st.log[slot].status == Sent
  }

  /** A SENT or SKIPPED row is left alone and asks for nothing more, and no row disappears. */
  ghost predicate SlotKept(st: State, st': State, slot: Slot) {
    && (slot in st.log ==> slot in st'.log)
    && (Final(RowAt(st, slot)) ==> RowAt(st', slot) == RowAt(st, slot) && PostsAt(st', slot) == PostsAt(st, slot))
  }

  ghost predicate Settled(st: State, st': State) { forall slot :: SlotKept(st, st', slot) }

  /** A slot's requests were accepted once if its row says SENT and never otherwise. */
  ghost predicate Once(st: State, slot: Slot) {
    AcceptedCount(PostsAt(st, slot)) == (if IsSent(st, slot) then 1 else 0)
  }

  ghost predicate OnceEach(st: State) { forall slot :: Once(st, slot) }

  lemma SettledTwice(a: State, b: State, c: State)
    requires Settled(a, b) && Settled(b, c)
    ensures Settled(a, c)
  {
    forall slot ensures SlotKept(a, c, slot) {
      assert SlotKept(a, b, slot) && SlotKept(b, c, slot);
    }
  }

  lemma TaskOnce(p: Progress, task: Task, oracle: Oracle, slot: Slot)
    ensures SlotKept(p.st, DoTask(p, task, oracle).st, slot)
    ensures Once(p.st, slot) ==> Once(DoTask(p, task, oracle).st, slot)
  {
    if task.Deliver? && slot == task.slot {
      DeliveryCount(oracle, slot, task.tries);
      CountAppend(PostsAt(p.st, slot), Posts(oracle, slot, 0, task.tries));
    }
  }

  lemma TaskOnceEach(p: Progress, task: Task, oracle: Oracle)
    ensures OnceEach(p.st) ==> OnceEach(DoTask(p, task, oracle).st)
    ensures Settled(p.st, DoTask(p, task, oracle).st)
  {
    forall slot
      ensures SlotKept(p.st, DoTask(p, task, oracle).st, slot)
      ensures Once(p.st, slot) ==> Once(DoTask(p, task, oracle).st, slot)
    {
      TaskOnce(p, task, oracle, slot);
    }
  }

  lemma {:induction false} TasksOnceEach(p: Progress, tasks: seq<Task>, oracle: Oracle)
    ensures OnceEach(p.st) ==> OnceEach(RunTasks(p, tasks, oracle).st)
    ensures Settled(p.st, RunTasks(p, tasks, oracle).st)
    decreases |tasks|
  {
    if tasks != [] && !p.raised {
      var q := DoTask(p, tasks[0], oracle);
      TaskOnceEach(p, tasks[0], oracle);
      TasksOnceEach(q, tasks[1..], oracle);
      SettledTwice(p.st, q.st, RunTasks(q, tasks[1..], oracle).st);
    }
  }

  lemma {:induction false} GroupsOnceEach(t: Tally, groups: seq<seq<Task>>, oracle: Oracle)
    ensures OnceEach(t.st) ==> OnceEach(RunGroups(t, groups, oracle).st)
    ensures Settled(t.st, RunGroups(t, groups, oracle).st)
    decreases |groups|
  {
    if groups != [] {
      var t1 := RunGroup(t, groups[0], oracle);
      TasksOnceEach(Begin(t.st), groups[0], oracle);
      GroupsOnceEach(t1, groups[1..], oracle);
      SettledTwice(t.st, t1.st, RunGroups(t1, groups[1..], oracle).st);
    }
  }

  lemma RunOnceEach(st: State, run: Run)
    ensures OnceEach(st) ==> OnceEach(Execute(st, run).st)
    ensures Settled(st, Execute(st, run).st)
  {
    GroupsOnceEach(Tally(st, 0, 0), GroupsFrom(run, run.certs), run.oracle);
  }

  /**
   * Over every history of daily and escalation runs, whatever certificates,
   * settings, failures and exceptions it holds: each slot has been accepted at
   * most once, exactly once if and only if its row is SENT, and rows that were
   * SENT or SKIPPED at any point of it are unchanged at the end.
   */
  lemma {:induction false} ExactlyOnce(st: State, history: seq<Run>, k: nat)
    requires OnceEach(st) && k <= |history|
    ensures OnceEach(After(st, history))
    ensures Settled(After(st, history[..k]), After(st, history))
    decreases |history|
  {
    if k == |history| {
      assert history[..k] == history;
      forall slot ensures SlotKept(After(st, history), After(st, history), slot) {}
      if k > 0 {
        ExactlyOnce(st, history[..k - 1], k - 1);
        RunOnceEach(After(st, history[..k - 1]), history[k - 1]);
      }
    } else {
      var n := |history| - 1;
      ExactlyOnce(st, history[..n], k);
      assert history[..n][..k] == history[..k];
      RunOnceEach(After(st, history[..n]), history[n]);
      SettledTwice(After(st, history[..k]), After(st, history[..n]), After(st, history));
    }
  }

  // ---------------------------------------------------------------- accounting

  ghost function SentIn(log: map<Slot, Row>): set<Slot> {
    set slot | slot in log && log[slot].status == Sent
  }

  ghost function SentSlots(st: State): set<Slot> { SentIn(st.log) }

  lemma SentAfterWrite(log: map<Slot, Row>, slot: Slot, row: Row)
    requires slot in log ==> log[slot].status != Sent
    ensures |SentIn(log[slot := row])| == |SentIn(log)| + (if row.status == Sent then 1 else 0)
  {
    var log' := log[slot := row];
    assert slot !in SentIn(log);
    if row.status == Sent {
      assert SentIn(log') == SentIn(log) + {slot};
    } else {
      assert SentIn(log') == SentIn(log);
    }
  }

  lemma TaskSent(p: Progress, task: Task, oracle: Oracle)
    ensures |SentSlots(DoTask(p, task, oracle).st)| - |SentSlots(p.st)| == DoTask(p, task, oracle).sent - p.sent
  {
    if task.Mark? {
      if task.slot !in p.st.log { SentAfterWrite(p.st.log, task.slot, Row(Skipped, task.threshold, [], 1)); }
    } else {
      var existing := RowAt(p.st, task.slot);
      var outcome := OutcomeOf(Posts(oracle, task.slot, 0, task.tries));
      if !Final(existing) && outcome != Crashed {
        SentAfterWrite(p.st.log, task.slot, Upsert(existing, task, outcome));
      }
    }
  }

  lemma {:induction false} TasksSent(p: Progress, tasks: seq<Task>, oracle: Oracle)
    ensures var q := RunTasks(p, tasks, oracle);
            |SentSlots(q.st)| - |SentSlots(p.st)| == q.sent - p.sent && q.sent >= p.sent
    decreases |tasks|
  {
    if tasks != [] && !p.raised {
      TaskSent(p, tasks[0], oracle);
      TasksSent(DoTask(p, tasks[0], oracle), tasks[1..], oracle);
    }
  }

  /** No delivery of this group ends in an unexpected exception. */
  ghost predicate Quiet(tasks: seq<Task>, oracle: Oracle) {
    forall task :: task in tasks && task.Deliver? ==> OutcomeOf(Posts(oracle, task.slot, 0, task.tries)) != Crashed
  }

  lemma {:induction false} QuietRuns(p: Progress, tasks: seq<Task>, oracle: Oracle)
    requires Quiet(tasks, oracle) && !p.raised
    ensures !RunTasks(p, tasks, oracle).raised
    decreases |tasks|
  {
    if tasks != [] {
      assert tasks[0] in tasks;
      assert forall task :: task in tasks[1..] ==> task in tasks;
      QuietRuns(DoTask(p, tasks[0], oracle), tasks[1..], oracle);
    }
  }

  lemma {:induction false} GroupsSent(t: Tally, groups: seq<seq<Task>>, oracle: Oracle)
    ensures var u := RunGroups(t, groups, oracle);
            && u.sent - t.sent <= |SentSlots(u.st)| - |SentSlots(t.st)|
            && ((forall g :: g in groups ==> Quiet(g, oracle)) ==>
                  u.sent - t.sent == |SentSlots(u.st)| - |SentSlots(t.st)|)
    decreases |groups|
  {
    if groups != [] {
      TasksSent(Begin(t.st), groups[0], oracle);
      if Quiet(groups[0], oracle) { QuietRuns(Begin(t.st), groups[0], oracle); }
      assert groups[0] in groups;
      assert forall g :: g in groups[1..] ==> g in groups;
      GroupsSent(RunGroup(t, groups[0], oracle), groups[1..], oracle);
    }
  }

  /** A run never claims more messages than rows became SENT, and claims exactly that many unless some record raised. */
  lemma Accounting(st: State, run: Run)
    ensures var t := Execute(st, run);
            && t.sent <= |SentSlots(t.st)| - |SentSlots(st)|
            && ((forall g :: g in GroupsFrom(run, run.certs) ==> Quiet(g, run.oracle)) ==>
                  t.sent == |SentSlots(t.st)| - |SentSlots(st)|)
  {
    GroupsSent(Tally(st, 0, 0), GroupsFrom(run, run.certs), run.oracle);
  }

  // ---------------------------------------------------------------- a run that reports ok

  /** Every slot a group was to deal with is settled (or, for an overtaken threshold, recorded). */
  ghost predicate Done(st: State, tasks: seq<Task>) {
    forall task :: task in tasks ==>
      if task.Mark? then task.slot in st.log else Final(RowAt(st, task.slot))
  }

  lemma DoneKept(st: State, st': State, tasks: seq<Task>)
    requires Done(st, tasks) && Settled(st, st')
    ensures Done(st', tasks)
  {
    forall task | task in tasks
      ensures if task.Mark? then task.slot in st'.log else Final(RowAt(st', task.slot))
    {
      assert SlotKept(st, st', task.slot);
    }
  }

  lemma {:induction false} TasksDone(p: Progress, tasks: seq<Task>, oracle: Oracle)
    requires !p.raised
    ensures var q := RunTasks(p, tasks, oracle);
            p.errors <= q.errors && (!q.raised && q.errors == p.errors ==> Done(q.st, tasks))
    decreases |tasks|
  {
    if tasks != [] {
      var p1 := DoTask(p, tasks[0], oracle);
      var q := RunTasks(p, tasks, oracle);
      TaskOnceEach(p, tasks[0], oracle);
      if p1.raised {
      } else {
        TasksDone(p1, tasks[1..], oracle);
        if !q.raised && q.errors == p.errors {
          assert Done(p1.st, [tasks[0]]);
          TasksOnceEach(p1, tasks[1..], oracle);
          DoneKept(p1.st, q.st, [tasks[0]]);
          assert tasks[0] in [tasks[0]];
          assert forall task :: task in tasks ==> task == tasks[0] || task in tasks[1..];
        }
      }
    }
  }

  lemma {:induction false} GroupsDone(t: Tally, groups: seq<seq<Task>>, oracle: Oracle)
    ensures var u := RunGroups(t, groups, oracle);
            t.failures <= u.failures
            && (u.failures == t.failures ==> forall g :: g in groups ==> Done(u.st, g))
    decreases |groups|
  {
    if groups != [] {
      var t1 := RunGroup(t, groups[0], oracle);
      var u := RunGroups(t, groups, oracle);
      TasksOnceEach(Begin(t.st), groups[0], oracle);
      TasksDone(Begin(t.st), groups[0], oracle);
      GroupsDone(t1, groups[1..], oracle);
      if u.failures == t.failures {
        GroupsOnceEach(t1, groups[1..], oracle);
        DoneKept(t1.st, u.st, groups[0]);
        assert forall g :: g in groups ==> g == groups[0] || g in groups[1..];
      }
    }
  }

  lemma {:induction false} TasksIdle(p: Progress, tasks: seq<Task>, oracle: Oracle)
    requires Done(p.st, tasks)
    ensures RunTasks(p, tasks, oracle) == p
    decreases |tasks|
  {
    if tasks != [] && !p.raised {
      assert tasks[0] in tasks;
      assert forall task :: task in tasks[1..] ==> task in tasks;
      TasksIdle(p, tasks[1..], oracle);
    }
  }

  lemma {:induction false} GroupsIdle(t: Tally, groups: seq<seq<Task>>, oracle: Oracle)
    requires forall g :: g in groups ==> Done(t.st, g)
    ensures RunGroups(t, groups, oracle) == t
    decreases |groups|
  {
    if groups != [] {
      assert groups[0] in groups;
      TasksIdle(Begin(t.st), groups[0], oracle);
      assert forall g :: g in groups[1..] ==> g in groups;
      GroupsIdle(t, groups[1..], oracle);
    }
  }

  /**
   * A run that reports ok leaves everything it planned settled, and doing the
   * same run again, whatever the providers would answer, sends nothing and
   * changes nothing.
   */
  lemma OkRunIsComplete(st: State, run: Run, again: Run)
    requires Execute(st, run).failures == 0
    requires GroupsFrom(again, again.certs) == GroupsFrom(run, run.certs)
    ensures forall g :: g in GroupsFrom(run, run.certs) ==> Done(Execute(st, run).st, g)
    ensures Execute(Execute(st, run).st, again) == Tally(Execute(st, run).st, 0, 0)
  {
    GroupsDone(Tally(st, 0, 0), GroupsFrom(run, run.certs), run.oracle);
    GroupsIdle(Tally(Execute(st, run).st, 0, 0), GroupsFrom(again, again.certs), again.oracle);
  }
}
