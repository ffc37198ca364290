/**
 * The once-only notification engine as values: what is due, what one delivery
 * does to the log, and what a whole run does. The imperative jobs in `Jobs` are
 * proved equal to these functions.
 */
module Ledger {
  import opened Common
  import opened Model

  datatype Channel = Email | Teams
  datatype Status = Sent | Error | Skipped

  /** What a dedupe key says; `Keys` shows that its printed form loses nothing. */
  datatype Key = Threshold(t: int) | ExpiredDay(day: int) | ExpiredSlot(day: int, hour: int)

  /** The columns of the log's unique constraint. */
  datatype Slot = Slot(cert: int, channel: Channel, key: Key)

  datatype Row = Row(status: Status, threshold: int, recipients: seq<string>, attempts: nat)

  // ---------------------------------------------------------------- delivery

  /** What one request to the mail provider or the webhook came back with. */
  datatype Reply = Answer(code: int) | HttpError | Unexpected

  predicate Accepted(r: Reply) { r.Answer? && r.code < 400 }

  predicate Retryable(r: Reply) {
    r.HttpError? || (r.Answer? && (r.code == 408 || r.code == 429 || r.code >= 500))
  }

  datatype Outcome = Delivered | Refused | Crashed

  /** The reply the k-th request for a slot would get during one run. */
  type Oracle = (Slot, nat) -> Reply

  /** The replies seen by a delivery that may still try `left` times. */
  function Posts(oracle: Oracle, slot: Slot, attempt: nat, left: nat): seq<Reply>
    decreases left
  {
    if left == 0 then [] else
      var r := oracle(slot, attempt);
      if Retryable(r) then [r] + Posts(oracle, slot, attempt + 1, left - 1) else [r]
  }

  function OutcomeOf(posts: seq<Reply>): Outcome {
    if posts == [] then Refused
    else
      var last := posts[|posts| - 1];
      if Accepted(last) then Delivered else if last.Unexpected? then Crashed else Refused
  }

  function AcceptedCount(posts: seq<Reply>): nat {
    if posts == [] then 0
    else AcceptedCount(posts[..|posts| - 1]) + (if Accepted(posts[|posts| - 1]) then 1 else 0)
  }

  // ---------------------------------------------------------------- the log

  datatype State = State(log: map<Slot, Row>, outbox: map<Slot, seq<Reply>>)

  function RowAt(st: State, slot: Slot): Option<Row> {
    if slot in st.log then Some(st.log[slot]) else None
  }

  function PostsAt(st: State, slot: Slot): seq<Reply> {
    if slot in st.outbox then st.outbox[slot] else []
  }

  predicate Final(row: Option<Row>) { row.Some? && row.value.status != Error }

  /** One thing a run does to one slot. */
  datatype Task =
    | Mark(slot: Slot, threshold: int)
    | Deliver(slot: Slot, threshold: int, recipients: seq<string>, tries: nat)

  /** The row written after a delivery that ended in success or a delivery error. */
  function Upsert(existing: Option<Row>, task: Task, outcome: Outcome): Row
    requires task.Deliver?
  {
    var status := if outcome == Delivered then Sent else Error;
    if existing.None? then Row(status, task.threshold, task.recipients, 1)
    else existing.value.(status := status, recipients := task.recipients, attempts := existing.value.attempts + 1)
  }

  function AddMark(st: State, task: Task): State
    requires task.Mark?
  {
    if task.slot in st.log then st
    else st.(log := st.log[task.slot := Row(Skipped, task.threshold, [], 1)])
  }

  function AddPosts(st: State, slot: Slot, posts: seq<Reply>): State {
    st.(outbox := st.outbox[slot := PostsAt(st, slot) + posts])
  }

  function WriteRow(st: State, task: Task, existing: Option<Row>, outcome: Outcome): State
    requires task.Deliver?
  {
    st.(log := st.log[task.slot := Upsert(existing, task, outcome)])
  }

  // ---------------------------------------------------------------- runs

  /** How far one certificate's work has got. */
  datatype Progress = Progress(st: State, sent: nat, errors: nat, raised: bool)

  function Begin(st: State): Progress { Progress(st, 0, 0, false) }

  function DoTask(p: Progress, task: Task, oracle: Oracle): Progress {
    if task.Mark? then p.(st := AddMark(p.st, task))
    else
      var existing := RowAt(p.st, task.slot);
      if Final(existing) then p
      else
        var posts := Posts(oracle, task.slot, 0, task.tries);
        var st := AddPosts(p.st, task.slot, posts);
        match OutcomeOf(posts)
        case Crashed => p.(st := st, raised := true)
        case Delivered => p.(st := WriteRow(st, task, existing, Delivered), sent := p.sent + 1)
        case Refused => p.(st := WriteRow(st, task, existing, Refused), errors := p.errors + 1)
  }

  /** An unexpected exception abandons the rest of this certificate's work. */
  function RunTasks(p: Progress, tasks: seq<Task>, oracle: Oracle): Progress
    decreases |tasks|
  {
    if tasks == [] || p.raised then p else RunTasks(DoTask(p, tasks[0], oracle), tasks[1..], oracle)
  }

  datatype Tally = Tally(st: State, sent: nat, failures: nat)

  function RunGroup(t: Tally, tasks: seq<Task>, oracle: Oracle): Tally {
    var p := RunTasks(Begin(t.st), tasks, oracle);
    if p.raised then Tally(p.st, t.sent, t.failures + 1)
    else Tally(p.st, t.sent + p.sent, t.failures + p.errors)
  }

  function RunGroups(t: Tally, groups: seq<seq<Task>>, oracle: Oracle): Tally
    decreases |groups|
  {
    if groups == [] then t else RunGroups(RunGroup(t, groups[0], oracle), groups[1..], oracle)
  }

  // ---------------------------------------------------------------- what is due

  datatype Due = Due(days: int, threshold: int, key: Key, superseded: seq<int>)

  const EXPIRED_DAILY_THRESHOLD := -1
  const EXPIRY_DAY_THRESHOLD := 0
  const MAX_ATTEMPTS: nat := 3

  /** Zero is a threshold whatever the list says. */
  function Effective(thresholds: seq<int>): seq<int> { thresholds + [EXPIRY_DAY_THRESHOLD] }

  function Crossed(thresholds: seq<int>, days: int): seq<int> {
    SortedSet(Filter(Effective(thresholds), t => days <= t))
  }

  function PlanFor(cert: Cert, thresholds: seq<int>, today: int, notifyWhenExpired: bool): (r: Option<Due>)
    ensures r.Some? && 0 <= r.value.days ==>
              && r.value.threshold in Effective(thresholds) && r.value.days <= r.value.threshold
              && (forall t :: t in Effective(thresholds) && r.value.days <= t ==> r.value.threshold <= t)
              && (forall t :: t in r.value.superseded <==>
                    t in Effective(thresholds) && r.value.days <= t && t != r.value.threshold)
    ensures r.Some? ==>
              && r.value.days == cert.DaysLeft(today)
              && r.value.key == (if r.value.days < 0 then ExpiredDay(today) else Threshold(r.value.threshold))
              && StrictlyAscending(r.value.superseded)
              && (r.value.days < 0 ==> r.value.superseded == [])
    ensures r.None? <==>
              if cert.DaysLeft(today) < 0 then !notifyWhenExpired
              else forall t :: t in Effective(thresholds) ==> t < cert.DaysLeft(today)
  {
    var days := cert.DaysLeft(today);
    if days < 0 then
      if !notifyWhenExpired then None
      else Some(Due(days, EXPIRED_DAILY_THRESHOLD, ExpiredDay(today), []))
    else
      var crossed := Crossed(thresholds, days);
      if crossed == [] then
        assert forall t :: t in Effective(thresholds) ==> (days <= t <==> t in crossed);
        None
      else
        assert crossed[0] in crossed;
        assert forall t :: t in crossed <==> t == crossed[0] || t in crossed[1..];
        assert forall i :: 0 <= i < |crossed| ==> crossed[0] <= crossed[i];
        Some(Due(days, crossed[0], Threshold(crossed[0]), crossed[1..]))
  }

  function ChannelsFor(settings: Settings): seq<Channel> {
    if settings.teamsWebhook != "" then [Email, Teams] else [Email]
  }

  /** Past the expiry date the escalation has Teams to itself. */
  function DueChannels(due: Due, settings: Settings): seq<Channel> {
    if due.days < 0 && settings.expiredTeamsEveryHours != 0
    then Filter(ChannelsFor(settings), c => c != Teams) else ChannelsFor(settings)
  }

  function MarkEach(id: int, t: int, channels: seq<Channel>): seq<Task> {
    if channels == [] then []
    else [Mark(Slot(id, channels[0], Threshold(t)), t)] + MarkEach(id, t, channels[1..])
  }

  function Marks(id: int, ts: seq<int>, channels: seq<Channel>): seq<Task> {
    if ts == [] then [] else MarkEach(id, ts[0], channels) + Marks(id, ts[1..], channels)
  }

  function TeamsTries(settings: Settings): nat {
    if settings.webhookAllowed then MAX_ATTEMPTS else 0
  }

  /** The deliveries one certificate is owed, email before Teams. */
  function Deliveries(cert: Cert, threshold: int, key: Key, settings: Settings, channels: seq<Channel>): seq<Task> {
    var recipients := RecipientsFor(cert, settings);
    (if Email in channels && recipients != [] && settings.emailConfigured
     then [Deliver(Slot(cert.id, Email, key), threshold, recipients, 1)] else [])
    + (if Teams in channels && settings.teamsWebhook != ""
       then [Deliver(Slot(cert.id, Teams, key), threshold, [], TeamsTries(settings))] else [])
  }

  function DailyTasks(cert: Cert, settings: Settings, today: int): seq<Task> {
    var plan := PlanFor(cert, cert.Thresholds(settings), today, settings.notifyWhenExpired);
    if plan.None? then [] else DueTasks(cert, plan.value, settings)
  }

  function DueTasks(cert: Cert, due: Due, settings: Settings): seq<Task> {
    Marks(cert.id, due.superseded, ChannelsFor(settings))
    + Deliveries(cert, due.threshold, due.key, settings, DueChannels(due, settings))
  }

  /** The slot of the repeating alert that `hour` falls in. */
  function Bucket(hour: nat, everyHours: int): int {
    var interval := if everyHours < 1 then 1 else everyHours;
    hour - hour % interval
  }

  predicate Escalates(settings: Settings) {
    settings.expiredTeamsEveryHours != 0 && settings.teamsWebhook != ""
  }

  function EscalationTasks(cert: Cert, settings: Settings, day: int, hour: nat): seq<Task> {
    if Escalates(settings) && cert.DaysLeft(day) < 0
    then Deliveries(cert, EXPIRED_DAILY_THRESHOLD,
                    ExpiredSlot(day, Bucket(hour, settings.expiredTeamsEveryHours)), settings, [Teams])
    else []
  }

  /** One execution of either job; `certs` is the order the query returned. */
  datatype Run =
    | Daily(certs: seq<Cert>, settings: Settings, today: int, oracle: Oracle)
    | Escalation(certs: seq<Cert>, settings: Settings, today: int, hour: nat, oracle: Oracle)

  function TasksOf(run: Run, cert: Cert): seq<Task> {
    if cert.status != Active || cert.muted then []
    else match run
      case Daily(_, settings, today, _) => DailyTasks(cert, settings, today)
      case Escalation(_, settings, today, hour, _) => EscalationTasks(cert, settings, today, hour)
  }

  function GroupsFrom(run: Run, certs: seq<Cert>): seq<seq<Task>> {
    if certs == [] then [] else [TasksOf(run, certs[0])] + GroupsFrom(run, certs[1..])
  }

  function Execute(st: State, run: Run): Tally {
    RunGroups(Tally(st, 0, 0), GroupsFrom(run, run.certs), run.oracle)
  }

  /** The state after a whole history of runs. */
  function After(st: State, history: seq<Run>): State
    decreases |history|
  {
    if history == [] then st
    else Execute(After(st, history[..|history| - 1]), history[|history| - 1]).st
  }
}
