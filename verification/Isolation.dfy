/** One certificate's rows depend on that certificate alone. */
module Isolation {
  import opened Common
  import opened Model
  import opened Ledger

  ghost predicate DistinctIds(certs: seq<Cert>) {
    forall i, j :: 0 <= i < j < |certs| ==> certs[i].id != certs[j].id
  }

  /** The work a run plans for the certificate with this id. */
  function GroupFor(run: Run, certs: seq<Cert>, id: int): seq<Task> {
    if certs == [] then []
    else if certs[0].id == id then TasksOf(run, certs[0]) else GroupFor(run, certs[1..], id)
  }

  ghost predicate Own(tasks: seq<Task>, id: int) {
    forall task :: task in tasks ==> task.slot.cert == id
  }

  ghost predicate SameFor(st: State, st': State, id: int) {
    forall slot: Slot :: slot.cert == id ==>
        RowAt(st, slot) == RowAt(st', slot) && PostsAt(st, slot) == PostsAt(st', slot)
  }

  ghost predicate SameReplies(o: Oracle, o': Oracle, id: int) {
    forall slot: Slot, k: nat :: slot.cert == id ==> o(slot, k) == o'(slot, k)
  }

  lemma {:induction false} MarkEachTasks(id: int, t: int, channels: seq<Channel>)
    ensures forall task :: task in MarkEach(id, t, channels) <==>
              task.Mark? && task.threshold == t && task.slot.channel in channels
                  && task.slot == Slot(id, task.slot.channel, Threshold(t))
  {
    if channels != [] {
      MarkEachTasks(id, t, channels[1..]);
      assert forall c :: c in channels <==> c == channels[0] || c in channels[1..];
    }
  }

  lemma {:induction false} MarksTasks(id: int, ts: seq<int>, channels: seq<Channel>)
    ensures forall task :: task in Marks(id, ts, channels) <==>
              task.Mark? && task.threshold in ts && task.slot.channel in channels
              && task.slot == Slot(id, task.slot.channel, Threshold(task.threshold))
  {
    if ts != [] {
      MarkEachTasks(id, ts[0], channels);
      MarksTasks(id, ts[1..], channels);
      assert forall t :: t in ts <==> t == ts[0] || t in ts[1..];
    }
  }

  lemma TasksAreOwn(run: Run, cert: Cert)
    ensures Own(TasksOf(run, cert), cert.id)
  {
    if run.Daily? {
      var plan := PlanFor(cert, cert.Thresholds(run.settings), run.today, run.settings.notifyWhenExpired);
      if plan.Some? { MarksTasks(cert.id, plan.value.superseded, ChannelsFor(run.settings)); }
    }
  }

  lemma {:induction false} PostsAgree(o: Oracle, o': Oracle, slot: Slot, attempt: nat, left: nat)
    requires SameReplies(o, o', slot.cert)
    ensures Posts(o, slot, attempt, left) == Posts(o', slot, attempt, left)
    decreases left
  {
    if left > 0 {
      assert o(slot, attempt) == o'(slot, attempt);
      PostsAgree(o, o', slot, attempt + 1, left - 1);
    }
  }

  lemma {:induction false} TasksAgree(p: Progress, p': Progress, tasks: seq<Task>, o: Oracle, o': Oracle, id: int)
    requires Own(tasks, id) && SameFor(p.st, p'.st, id) && SameReplies(o, o', id)
    requires p.raised == p'.raised && p.sent == p'.sent && p.errors == p'.errors
    ensures var q, q' := RunTasks(p, tasks, o), RunTasks(p', tasks, o');
            SameFor(q.st, q'.st, id) && q.raised == q'.raised && q.sent == q'.sent && q.errors == q'.errors
    decreases |tasks|
  {
    if tasks != [] && !p.raised {
      var task := tasks[0];
      assert task in tasks;
      assert RowAt(p.st, task.slot) == RowAt(p'.st, task.slot);
      assert PostsAt(p.st, task.slot) == PostsAt(p'.st, task.slot);
      if task.Deliver? { PostsAgree(o, o', task.slot, 0, task.tries); }
      var q, q' := DoTask(p, task, o), DoTask(p', task, o');
      forall slot: Slot | slot.cert == id
        ensures RowAt(q.st, slot) == RowAt(q'.st, slot) && PostsAt(q.st, slot) == PostsAt(q'.st, slot)
      {
        assert RowAt(p.st, slot) == RowAt(p'.st, slot) && PostsAt(p.st, slot) == PostsAt(p'.st, slot);
      }
      assert forall task :: task in tasks[1..] ==> task in tasks;
      TasksAgree(q, q', tasks[1..], o, o', id);
    }
  }

  /** A slot no task names is left alone. */
  lemma {:induction false} Untouched(p: Progress, tasks: seq<Task>, oracle: Oracle, slot: Slot)
    requires forall task :: task in tasks ==> task.slot != slot
    ensures var q := RunTasks(p, tasks, oracle);
            RowAt(q.st, slot) == RowAt(p.st, slot) && PostsAt(q.st, slot) == PostsAt(p.st, slot)
    decreases |tasks|
  {
    if tasks != [] && !p.raised {
      assert tasks[0] in tasks;
      assert forall task :: task in tasks[1..] ==> task in tasks;
      Untouched(DoTask(p, tasks[0], oracle), tasks[1..], oracle, slot);
    }
  }

  lemma Foreign(p: Progress, tasks: seq<Task>, oracle: Oracle, owner: int, id: int)
    requires Own(tasks, owner) && owner != id
    ensures SameFor(p.st, RunTasks(p, tasks, oracle).st, id)
  {
    forall slot: Slot | slot.cert == id
      ensures var q := RunTasks(p, tasks, oracle);
              RowAt(q.st, slot) == RowAt(p.st, slot) && PostsAt(q.st, slot) == PostsAt(p.st, slot)
    {
      Untouched(p, tasks, oracle, slot);
    }
  }

  lemma {:induction false} NoGroup(run: Run, certs: seq<Cert>, id: int)
    requires forall i :: 0 <= i < |certs| ==> certs[i].id != id
    ensures GroupFor(run, certs, id) == []
  {
    if certs != [] { NoGroup(run, certs[1..], id); }
  }

  lemma {:induction false} GroupOf(run: Run, certs: seq<Cert>, cert: Cert)
    requires DistinctIds(certs) && cert in certs
    ensures GroupFor(run, certs, cert.id) == TasksOf(run, cert)
  {
    if certs[0] != cert {
      assert cert in certs[1..];
      GroupOf(run, certs[1..], cert);
    }
  }

  lemma {:induction false} GroupsLocal(t: Tally, run: Run, certs: seq<Cert>, id: int)
    requires DistinctIds(certs)
    ensures SameFor(RunTasks(Begin(t.st), GroupFor(run, certs, id), run.oracle).st,
                    RunGroups(t, GroupsFrom(run, certs), run.oracle).st, id)
    decreases |certs|
  {
    if certs != [] {
      var g := TasksOf(run, certs[0]);
      var t1 := RunGroup(t, g, run.oracle);
      TasksAreOwn(run, certs[0]);
      GroupsLocal(t1, run, certs[1..], id);
      if certs[0].id == id {
        NoGroup(run, certs[1..], id);
      } else {
        Foreign(Begin(t.st), g, run.oracle, certs[0].id, id);
        GroupForOwn(run, certs[1..], id);
        TasksAgree(Begin(t.st), Begin(t1.st), GroupFor(run, certs[1..], id), run.oracle, run.oracle, id);
        Chain(RunTasks(Begin(t.st), GroupFor(run, certs, id), run.oracle).st,
              RunTasks(Begin(t1.st), GroupFor(run, certs[1..], id), run.oracle).st,
              RunGroups(t1, GroupsFrom(run, certs[1..]), run.oracle).st, id);
      }
    }
  }

  lemma {:induction false} GroupForOwn(run: Run, certs: seq<Cert>, id: int)
    ensures Own(GroupFor(run, certs, id), id)
  {
    if certs != [] {
      TasksAreOwn(run, certs[0]);
      GroupForOwn(run, certs[1..], id);
    }
  }

  lemma Chain(a: State, b: State, c: State, id: int)
    requires SameFor(a, b, id) && SameFor(b, c, id)
    ensures SameFor(a, c, id)
  {
    forall slot: Slot | slot.cert == id
      ensures RowAt(a, slot) == RowAt(c, slot) && PostsAt(a, slot) == PostsAt(c, slot)
    {
      assert RowAt(a, slot) == RowAt(b, slot) && PostsAt(a, slot) == PostsAt(b, slot);
    }
  }

  /** Within a run, a certificate fares as if the run had no other certificate in it. */
  lemma RunLocal(st: State, run: Run, cert: Cert)
    requires DistinctIds(run.certs) && cert in run.certs
    ensures SameFor(RunTasks(Begin(st), TasksOf(run, cert), run.oracle).st, Execute(st, run).st, cert.id)
  {
    GroupOf(run, run.certs, cert);
    GroupsLocal(Tally(st, 0, 0), run, run.certs, cert.id);
  }

  /**
   * Isolation: two runs over different boards, from different histories, in a
   * different order and with different failures or exceptions for everybody
   * else, leave the same rows and requests for a certificate that both plan the
   * same work for, met the same rows for and got the same replies for.
   */
  lemma IsolatedRuns(st: State, st': State, run: Run, run': Run, cert: Cert)
    requires DistinctIds(run.certs) && cert in run.certs
    requires DistinctIds(run'.certs) && cert in run'.certs
    requires TasksOf(run, cert) == TasksOf(run', cert)
    requires SameFor(st, st', cert.id) && SameReplies(run.oracle, run'.oracle, cert.id)
    ensures SameFor(Execute(st, run).st, Execute(st', run').st, cert.id)
  {
    var alone := RunTasks(Begin(st), TasksOf(run, cert), run.oracle).st;
    var alone' := RunTasks(Begin(st'), TasksOf(run', cert), run'.oracle).st;
    RunLocal(st, run, cert);
    RunLocal(st', run', cert);
    TasksAreOwn(run, cert);
    TasksAgree(Begin(st), Begin(st'), TasksOf(run, cert), run.oracle, run'.oracle, cert.id);
    Chain(Execute(st, run).st, alone, alone', cert.id);
    Chain(Execute(st, run).st, alone', Execute(st', run').st, cert.id);
  }
}
