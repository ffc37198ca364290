# NotAfter: a verified model

NotAfter watches certificates run out. It tells people by email and Teams, keeps
an event in their calendars, and promises that nobody is told the same thing
twice. This project models the parts of it that carry those promises and proves
them with Dafny. `dafny verify dfyconfig.toml` checks everything.

## How it is built

| file | what it holds |
|---|---|
| `Common.dfy`, `Text.dfy`, `Model.dfy` | sorted sets, decimal text and trimming, the stored records and settings with their effective values |
| `Ledger.dfy` | what is due, what one delivery does to the log, what a run of either job does, all as values |
| `OnceOnly.dfy` | the retry loop, exactly-once over every history, run accounting, runs that report ok |
| `Columns.dfy` | what a run asks for one record and what a delivery leaves, in terms of the stored columns and plain numbers |
| `Isolation.dfy` | one certificate's rows depend on that certificate alone |
| `History.dfy` | the log as a function of the run history; the calendar rule it refines |
| `Keys.dfy`, `Escalation.dfy` | printed dedupe keys; how many cards an expired certificate gets in a day |
| `Interleaving.dfy` | the daily job and the escalation sharing one event loop, step by step |
| `Jobs.dfy` | the notifier and both jobs as methods over a mutable log, proved equal to `Ledger` |
| `Calendar.dfy` | invites, SEQUENCE numbers, withdrawal of the old second event, the receiving client |
| `Registry.dfy`, `Records.dfy`, `Lifecycle.dfy`, `Service.dfy` | records, what each operation leaves of them field by field, their lifecycle, the calendar invariant over it, and the routes as methods of a class |
| `RateLimits.dfy`, `SignIns.dfy` | the sliding-window limiter and the bounded sign-in memory |
| `Pem.dfy`, `Leaves.dfy` | PEM printing and reading, end-entity selection |
| `DayLists.dfy`, `Forms.dfy` | day lists in form fields; the settings form and a certificate's form as wholes |

A **run** of either job turns each certificate into a list of work items: mark a
threshold as overtaken, or deliver to one slot, a slot being (certificate,
channel, dedupe key). Each delivery asks an oracle what each request would be
answered: a status code, a transport error, or something unexpected. The outbox
records, slot by slot, every reply that came back. The methods in `Jobs` change
the log in place as the source does, and are proved to end in exactly the state
`Ledger` computes; the theorems are about `Ledger`.

The **calendar** part keeps the stored rows and every message attempted, with
whether the mail provider took it. A lifecycle operation changes the records and
says whose event is to be published or withdrawn; the methods of
`Service.NotAfter` are proved to do that.

Dates are day numbers and moments are a day and an hour. Limits are times in
seconds, as real numbers.

## Assumptions

- Two runs of the same job do not overlap. A daily run may interleave at any step
  with the escalation runs that come due while it lasts; that is a theorem here,
  not an assumption.
- There is no crash between a send and its commit, and the database itself does
  not fail.
- `History.RowFollowsHistory` is about records whose own deliveries end in success
  or a delivery error; what is raised over other records does not matter. Each run
  reads the record as it then is, so its date, thresholds, people and state may
  change at will between runs.
- `History.ThresholdRow` and `History.Schedule` rest on it and fix, for the runs a
  record takes part in, its expiry date, its effective thresholds and that the
  channel is enabled. `ThresholdRow` lets it be away, archived or muted in others.
- Nothing unexpected is raised inside the sending of an invite; delivery errors
  are covered.
- Addresses and the text of form fields are Latin-1 text, and Python's `int`
  converts at most 4300 digits, which is its default.

## Where the code does not keep a promise

- **The rate limiter's hint.** The refusal says to wait `retry_after` seconds and
  try again. Oldest hits leave the window only strictly after it, and the hint is
  rounded down, so waiting exactly that long works if and only if the oldest hit
  had less than a second to go (`RateLimits.HintExactly`; `RateLimits.HintTooShort`
  is a concrete case). One second more always works (`RateLimits.HintPlusOne`).
- **A limit of zero.** The parser takes `0/hour`, and the limiter then reads the
  first element of an empty queue (`RateLimits.ZeroRate`). A check ends that way
  if and only if the limit is zero, and then every check does
  (`RateLimits.BrokenIff`).
- **Calendars that keep up with the board.** Two kinds of call leave a record's
  event wrong: one that announces a record from the archive (resending or
  attaching on it, or renewing another record onto it: `Lifecycle.StrayCall`), and
  one that changes what a record's event should show, registering and archiving
  included, while there is nobody to mail about it (`Lifecycle.SilentArchive`). `Lifecycle.LiveStep`
  shows, record by record, that exactly these do, and `Lifecycle.LiveHistory` that
  a calendar stays true over a history exactly when none of them occurs.
- **Renewal chains.** A renewal onto an existing record can close a loop; one is
  enough (`Registry.RenewalLoop`). While no chain comes back, a call makes one
  come back if and only if it renews onto an existing record that already leads
  to the one being renewed (`Registry.LoopStep`, `Registry.LoopHistory`), and
  chains end if and only if none comes back (`Registry.ChainsEndIff`). Renewing
  onto an older record need not close one (`Registry.BackWithoutLoop`).
- **Withdrawing the old second event.** The first publication cancels the separate
  renewal event of an older installation and marks it withdrawn even when the mail
  provider refused the message. No later publication tries again; archiving or
  renewing the record does, once for each such call that can be mailed
  (`Lifecycle.WithdrawalRepeats`). `Lifecycle.RefusedWithdrawal` is a concrete run
  with the first message refused.
- **Numbers in forms.** Anything that is not a number is meant to be passed over,
  or to leave the global setting in force. But the test for digits also takes
  superscripts, and then the conversion raises and nothing is saved
  (`Forms.SuperscriptFails`); so does a numeral of more than 4300 digits in a
  certificate's form (`Forms.LongNumberFails`), and in the threshold field a
  numeral after two or more dashes (`Forms.DashesFail`). `Forms.UpdateReadIff`,
  `Forms.ThresholdsReadIff` and `Forms.SubmitIff` say exactly when each form
  fails to save.
- **Saving a form that was not touched.** An address cut off at 200 characters right
  after a blank keeps that blank, and saving it again takes it away
  (`Forms.CutAddress`). A certificate's form saved as shown changes nothing and
  publishes nothing if and only if no stored address has such an end
  (`Forms.UntouchedCertificate`); the settings form never re-issues invites
  (`Forms.UntouchedSettings`).
- The resend route says it sends both calendar events; the code sends one, and
  the model follows the code.

## Model

| member | source | states |
|---|---|---|
| Model.Audience | app/notifier.py:82-112 | Who is told: owner and own people always, defaults unless replaced, the calendar list standing in for the defaults when there is one; no address twice on either list, however it is spelt |
| Model.UniqueOrder | app/notifier.py:475-484 | Addresses keep their order and their first spelling, trimmed: a further one goes to the end unless it is blank or already there in some spelling |
| Model.SameAddress | app/notifier.py:475-484 | Spellings that differ in the case of letters or in blanks around them name the same address |
| Ledger.PlanFor | app/jobs.py:46-86 | The threshold reported is the smallest effective one not yet passed (zero always counts), the superseded ones are exactly the others reached, and nothing is due iff none is reached or, once expired, reminders are off |
| OnceOnly.RetryLoop | app/notify/teams.py:226-238 | At most the allowed number of requests; all but the last met a retryable reply; it stops early only on a reply that is not |
| OnceOnly.DeliveryCount | app/notify/teams.py:193-244 | A delivery gets one accepted reply exactly when it reports success, and none otherwise |
| OnceOnly.ExactlyOnce | app/notifier.py:210-244 | Over every history of both jobs, with any settings, failures and exceptions: each slot is accepted at most once, once iff its row is SENT; SENT and SKIPPED rows of any earlier moment are unchanged |
| OnceOnly.Accounting | app/jobs.py:113-170 | A run's count of messages never exceeds the growth of SENT rows and equals it when no record raised |
| OnceOnly.OkRunIsComplete | app/jobs.py:138-168 | A run that reports ok leaves everything it planned settled, and the same plan run again sends nothing and changes nothing whatever the providers would answer |
| History.OkRunSettles | app/jobs.py:119-168 | After an ok daily run the nearest threshold of every eligible certificate and enabled channel is SENT or SKIPPED and every other reached one is on record |
| History.OneMessageEach | app/notifier.py:125-170 | A run owes a certificate at most one message per channel |
| History.ThresholdTask | app/jobs.py:75-136 | For an enabled channel a run delivers the nearest threshold to the right people, marks the other reached ones, and leaves the rest alone |
| History.ReminderTask | app/jobs.py:63-137 | An expired certificate's daily reminder is attempted iff reminders are on, the channel is enabled and, for Teams, the escalation is off |
| Columns.DailyReminder | app/models.py:152-154 | Up to its expiry day a record is owed exactly one message on each channel that is on, for the nearest day left of its own list if it has one, else the settings', the expiry day always counting; nothing if no such day is left |
| Columns.DailyMarks | app/jobs.py:126-129 | Exactly the other days reached are marked, on the channels in use |
| Columns.ExpiredReminder | app/jobs.py:131-137 | Past expiry the reminder of the day is owed by mail when reminders are on, by card only while the hourly alert is off |
| Columns.HourlyCard | app/jobs.py:215-231 | An hourly run owes an expired record one card, for the slot that begins at the hour floored to the interval |
| Columns.RequestBound | app/notify/teams.py:25-226 | Whatever happens, a run makes at most three requests for a card and none to a webhook that is not allowed, and at most one attempt at a mail |
| Columns.OneDelivery | app/notify/teams.py:220-244 | The requests of one delivery in order: repeated after a transport error, 408, 429 or 5xx up to the allowance and not otherwise; the row they leave, with its recipients, threshold and count |
| Columns.FirstReplySends | app/notifier.py:221-243 | An owed message whose first request is answered below 400 takes that one request and is on record as SENT |
| Columns.OneMark | app/notifier.py:246-274 | An overtaken threshold without a row gets one that says so; one with a row keeps it |
| History.RowFollowsHistory | app/notifier.py:210-274 | Any slot's row after any history, the record being whatever each run finds: absent until first touched, SKIPPED for good if that was a mark, else SENT or ERROR by whether an attempt succeeded, with attempts counted to the first success |
| History.ThresholdRow | app/notifier.py:246-274 | With the record's date and effective thresholds fixed: absent iff no run it took part in reached it, SENT iff a run for which it was nearest succeeded, ERROR iff all such runs failed, SKIPPED iff there was none; and the number of attempts |
| History.Schedule | app/jobs.py:63-147 | With a successful run on each of the last D days: the message of day d < D goes out iff d is a threshold or zero, that of day D iff some threshold is at least D |
| Isolation.RunLocal | app/jobs.py:119-160 | Within a run a certificate ends with the rows and requests it would have if it were the only one |
| Isolation.IsolatedRuns | app/jobs.py:138-154 | Two runs that plan the same work for a certificate and give it the same replies leave it the same rows, whatever else is on the board and whatever others raise |
| Keys.PrintInjective | app/notifier.py:52-71 | The three printed dedupe keys are injective with disjoint images |
| Keys.PrintLooks | app/notifier.py:52-71 | The stored text of the three keys |
| Keys.CivilFollows | app/notifier.py:57-71 | Printed dates follow the Gregorian calendar, day by day |
| Keys.SlotKeys | app/notifier.py:62-71 | Two moments share an hourly key iff they share the date and the slot of the day |
| Escalation.DailyCards | app/jobs.py:131-231 | With an interval of h hours, at most ceil(24/h) accepted Teams cards in a day for an expired certificate, and none from the daily job's key |
| Escalation.DailyCardsMet | app/jobs.py:215-231 | Exactly that many when each slot of the day has a run that gets its card through, whatever else happened then or before |
| Interleaving.FinishIsRun | app/notifier.py:210-244 | The check, send and write steps, left alone, are the run |
| Interleaving.RowsNeverMeet | app/jobs.py:119-231 | No row is named by both a daily run and an escalation run, whatever their settings |
| Interleaving.AllCanFinish | app/notifier.py:210-244 | Wherever the jobs stand, there is a way to go on until all are done |
| Interleaving.InterleavingIsSequential | app/jobs.py:183-263 | Any step-by-step interleaving of a daily run with any number of successive escalation runs ends in the same log and outbox as one after the other, the daily run first or last |
| Jobs.PostCard | app/notify/teams.py:193-244 | The retry loop makes exactly the specified requests and reports the specified outcome |
| Jobs.Notifier.UpsertLog | app/notifier.py:505-536 | The row is created or updated as specified, nothing else changes |
| Jobs.Notifier.Deliver | app/notifier.py:210-244 | One delivery leaves the specified log and outbox and reports what happened |
| Jobs.Notifier.MarkSuperseded | app/notifier.py:246-274 | Every overtaken threshold on every channel is recorded as skipped unless it already has a row |
| Jobs.Notifier.NotifyExpiry | app/notifier.py:125-170 | Email then Teams, where enabled; an exception on one ends the certificate's work |
| Jobs.Notifier.RunDailyJob | app/jobs.py:89-180 | The daily job ends in the specified state with the specified counts, ok iff there were no failures |
| Jobs.Notifier.RunExpiryEscalation | app/jobs.py:183-263 | Likewise the hourly escalation |
| Calendar.AlarmsAre | app/notify/ics.py:56-63 | The event's alarms are the positive reminder days and the renewal lead, each once, furthest first |
| Calendar.UidTextInjective | app/notify/ics.py:39-41 | No two events share a printed identifier |
| Calendar.InvitesNumbered | app/notifier.py:305-337 | Each message of an event, taken or not, carries the next SEQUENCE; the row always repeats the last one |
| Calendar.PublishEffect | app/notifier.py:278-338 | Publishing sends exactly one PUBLISH on the record's date with its effective alarms, leaves the old renewal event withdrawn and other records' events alone |
| Calendar.PublishedColumns | app/notify/ics.py:44-63 | A published event carries the record's own date and, as alarms, the positive days of its own reminders if it has a list (an empty one included), else the settings', and the lead likewise; the row kept |
| Calendar.CancelledColumns | app/notify/ics.py:44-53 | A cancellation carries no alarms and the expiry date, or the lead before it for the old second event |
| Calendar.MessageIs | app/notify/ics.py:44-63 | Any message for either event: its date, its alarms and whom it names |
| Calendar.RetireEffect | app/notifier.py:385-398 | The old second event is withdrawn if there is one and nothing else is touched |
| Calendar.RetiredOnce | app/notifier.py:302-410 | The first publication sends one CANCEL for the old second event and marks it withdrawn, taken or not; later publications say nothing more about it, and cancelling the record's events sends another CANCEL |
| Calendar.CancelEffect | app/notifier.py:400-410 | One CANCEL per event the record has, nothing for one it never had |
| Calendar.ClientShowsNewest | app/notifier.py:289-291 | Under any order, loss or repetition a client shows, for each event that arrived, the newest arrival |
| Calendar.ClientsConverge | app/notifier.py:289-291 | Clients that got the same messages in any order show the same calendar |
| Calendar.ClientMatchesRow | app/notifier.py:319-334 | If the row's last message was taken and arrived, the client shows what the row says |
| Lifecycle.HistoryNumbered | app/routes/certificates.py:119-634 | Numbering and rows stay right over every lifecycle and settings history, whichever messages fail |
| Lifecycle.LiveStep | app/routes/certificates.py:338-524 | A record's last message is PUBLISH on its date with its alarms while active and CANCEL once archived: a call leaves this so iff it does not announce the record from the archive and, when nobody can be mailed about it, does not change what its event shows |
| Lifecycle.LiveHistory | app/routes/settings_page.py:159-224 | Over a whole history, re-issue on changed settings included, a record's calendar is true at every moment iff every call was one that keeps it |
| Lifecycle.StrayCall | app/routes/certificates.py:395-457 | Registered, archived and resent: an archived record's event is published |
| Lifecycle.SilentArchive | app/notifier.py:295-303 | Archived with nobody to tell: the event stays published |
| Lifecycle.ClientShowsExpiry | app/notifier.py:278-338 | End to end: the client shows the certificate's own expiry date and effective reminders |
| Lifecycle.RenewalStaysGone | app/notifier.py:302-398 | The first operation that sends anything about a record leaves the old separate renewal event marked withdrawn, and no later history undoes that |
| Lifecycle.WithdrawalRepeats | app/notifier.py:302-410 | Once it is marked withdrawn, over any history, it gets exactly one further CANCEL for each archiving or renewal of the record while it can be mailed, and no other message |
| Lifecycle.RefusedWithdrawal | app/notifier.py:318-334 | A refused withdrawal, a resend that does not repeat it, and an archiving that does |
| Registry.ActiveUpTo | app/services.py:168-183 | Exactly the active records, once each, soonest expiry first |
| Registry.HistoryKeepsOk | app/services.py:191-497 | Over every history: fingerprints distinct, verified iff uploaded iff fingerprint present, archived iff dated, no record replaces itself |
| Records.Uploaded | app/services.py:191-246 | A known upload leads to its record and changes nothing; any other gets a new record with its date, the owner typed and nothing else set |
| Records.Typed | app/services.py:249-288 | A typed date is registered as it is, unverified |
| Records.Attached | app/services.py:291-353 | Accepted iff the record exists, nobody else has the certificate and the date agrees or is confirmed; then date and fingerprint are the certificate's and nothing else changes; each refusal otherwise |
| Records.Renewed | app/services.py:356-408 | Accepted iff the record exists and the certificate is not its own; the old record archived and linked, the successor found or new with its date, the old owner and the old record's people; nobody else changes |
| Records.Updated | app/services.py:411-459 | Each edited field takes its new value and no other changes; published again iff not archived and the lead, the reminders, the switch, the people or the owner came out different |
| Records.Moved | app/services.py:462-497 | Archiving and restoring move a record off and onto the board and change nothing else about it |
| Records.Resettled | app/routes/settings_page.py:159-224 | New settings leave every record; each active one is announced once, soonest expiry first, iff the lead or the reminders changed |
| Registry.LoopStep | app/services.py:356-408 | While no chain of replacements comes back, a call makes one come back iff it renews onto an existing record that already leads to the one being renewed |
| Registry.LoopHistory | app/services.py:356-408 | Over a whole history no chain ever comes back iff no call was a renewal that closed a loop |
| Registry.ChainsEndIff | app/services.py:375-400 | Every chain of replacements ends iff none comes back |
| Registry.ClimbStep | app/services.py:356-408 | An operation keeps replacements later than what they replace iff it is not a renewal onto an older record |
| Registry.ClimbHistory | app/services.py:356-408 | Over a whole history without renewals onto older records (as when every renewal creates its successor) replacements are always later records |
| Registry.ChainsEnd | app/services.py:356-408 | With climbing chains every chain is finite and none returns to its start |
| Registry.RenewalLoop | app/services.py:377-390 | One renewal onto an existing record closes a loop |
| Registry.BackWithoutLoop | app/services.py:377-390 | A renewal onto an older record that closes none |
| Service.NotAfter.SendInvites | app/notifier.py:278-338 | The sending loop leaves the specified rows and messages |
| Service.NotAfter.RetireSeparateRenewalEvent | app/notifier.py:385-398 | The mutual recursion that withdraws the old event |
| Service.NotAfter.Create | app/routes/certificates.py:132-162 | Registers or links, and publishes only when created |
| Service.NotAfter.CreateManual | app/routes/certificates.py:208-248 | Registers a typed date, unverified, and publishes its event |
| Service.NotAfter.Attach | app/services.py:291-353 | Refusals in order (claimed elsewhere, other date unconfirmed), else the record is upgraded and published |
| Service.NotAfter.RenewCertificate | app/routes/certificates.py:502-524 | Successor registered or linked, old record archived and withdrawn, successor published |
| Service.NotAfter.UpdateCertificate | app/routes/certificates.py:314-391 | Edits the record from its form and publishes iff timing or audience changed and it is not archived; nothing happens when one of the numbers cannot be read |
| Service.NotAfter.ArchiveCertificate | app/routes/certificates.py:395-413 | Archives once, withdrawing the events |
| Service.NotAfter.RestoreCertificate | app/routes/certificates.py:417-428 | Back on the board, event published again |
| Service.NotAfter.SaveSettings | app/routes/settings_page.py:112-224 | Reads and clamps the form, keeps the webhook when none is typed, saves nothing if it is refused or a number cannot be read; every active record's event re-issued iff the calendar timing changed |
| RateLimits.RateLimiter.Check | app/security.py:244-265 | One request's verdict and hits, for its own key only |
| RateLimits.WindowBound | app/security.py:251-265 | Every closed interval as long as the window holds at most `limit` allowed requests |
| RateLimits.RefusedIff | app/security.py:251-255 | Refused iff `limit` requests were allowed in the window ending now |
| RateLimits.AfterRefusal | app/security.py:251-265 | After a refusal the next request is allowed iff the oldest hit has left the window |
| RateLimits.HintPlusOne | app/security.py:256-264 | Waiting a second more than the hint always frees a slot |
| RateLimits.HintExactly | app/security.py:256-264 | Waiting exactly the hint frees one iff the oldest hit had less than a second to go |
| RateLimits.HintIs | app/security.py:256 | The hint is the whole seconds until the oldest hit reaches the edge of the window, or one second |
| RateLimits.HintTooShort | app/security.py:256-264 | A concrete hint that is too short |
| RateLimits.BrokenIff | app/security.py:251-256 | The oldest hit is looked up in an empty queue iff the limit is zero, whatever came before |
| RateLimits.RateReads | app/security.py:224-231 | A printed limit, zero included, is read back iff it has at most 4300 digits |
| RateLimits.RateReadsIff | app/security.py:224-231 | A rate is a numeral, a slash and one of four units, with blanks around either; anything else is refused |
| RateLimits.UnitsLook | app/security.py:227-231 | The four units in seconds |
| RateLimits.ZeroRate | app/security.py:224-256 | A rate the parser takes and a first request the limiter cannot answer |
| SignIns.SignInRecorder.IsNew | app/auth.py:233-244 | One question's answer and the memory after it |
| SignIns.MemoryIsRecent | app/auth.py:228-244 | The memory is the most recent distinct sessions in last-use order, up to capacity |
| SignIns.Exact | app/auth.py:233-244 | Not new iff seen before with fewer than `capacity` distinct others since |
| SignIns.AgreesWithUnbounded | app/auth.py:220-244 | Up to capacity distinct sessions, the answers of an unbounded memory |
| Leaves.NoLeafMeansCycle | app/parsing.py:326-347 | A bundle without a candidate contains an issuer cycle among certificates that are not self-issued |
| Leaves.ChainLeaf | app/parsing.py:314-352 | For any chain with distinct subjects, in any order, with or without its root, the end entity is chosen |
| Leaves.BrowserAgrees | web/src/extract.ts:164-175 | The page offers the server's candidates on every bundle of two or more; when there are none it offers the whole bundle and the server takes the first of those expiring soonest |
| Leaves.PageOffers | web/src/extract.ts:165 | A file of one certificate is offered as it is, the server's choice too; only an empty file offers nothing |
| Leaves.CandidatesAre | app/parsing.py:326-339 | The candidates, in order: the certificates that issue no other and are issued by somebody else if there are any, otherwise the self-issued ones that issue no other |
| Pem.Base64 | web/src/extract.ts:94-98 | The encoding loop |
| Pem.DecodeBase64 | web/src/extract.ts:100-107 | The decoding loop |
| Pem.AtobBtoa | web/src/extract.ts:94-107 | Decoding undoes encoding for all bytes |
| Pem.FullGroupOf | web/src/extract.ts:94-98 | Three bytes are four symbols of six bits each |
| Pem.SymbolLooks | web/src/extract.ts:94-98 | The alphabet |
| Pem.GroupsAccept | web/src/extract.ts:100-107 | Decoding takes symbols only, in any number but one more than whole groups |
| Pem.SpaceIgnored | web/src/extract.ts:101 | White space inside an encoded text makes no difference |
| Pem.BodyLines | web/src/extract.ts:110-113 | The body is the base64 text in lines of 64, only the last shorter |
| Pem.BlockLooks | web/src/extract.ts:110-113 | A printed block is its body between two markers, each on a line of its own |
| Pem.PemRoundTrip | web/src/extract.ts:185-191 | Printing any list of byte strings and reading the text gives the list back |
| DayLists.SettingsRoundTrip | app/routes/settings_page.py:39-51 | A stored day list shown in the settings form reads back unchanged |
| DayLists.SavedListIsStable | app/routes/settings_page.py:45-51 | Whatever text was typed, if it could be read, showing and saving the result again changes nothing |
| DayLists.SettingsPartsAre | app/routes/settings_page.py:39-42 | Commas, semicolons and line ends separate, and nothing else does |
| DayLists.ParseDaysIs | app/routes/settings_page.py:45-51 | A readable reminder field is the positive numbers in it, each once, largest first, or the default if there are none |
| DayLists.DayListIs | app/routes/certificates.py:377-383 | A readable day list is the positive numbers in it, or none |
| DayLists.OverrideRoundTrip | app/routes/certificates.py:377-383 | Likewise one certificate's override, or its absence |
| Forms.SubmitFits | app/routes/settings_page.py:137-161 | Whatever is submitted, the settings saved are fit: thresholds descending from zero up, hours 0 to 24, lead 0 to 3650, reminders positive and descending, clean addresses |
| Forms.ThresholdsRoundTrip | app/routes/settings_page.py:54-60 | A stored threshold list shown in the form reads back unchanged |
| Forms.ThresholdsReadIff | app/routes/settings_page.py:54-60 | The threshold field fails to read iff some part passes for a number and has two or more dashes, a superscript or too many digits |
| Forms.SubmitIff | app/routes/settings_page.py:139-161 | The settings are saved iff a newly typed webhook is allowed, no threshold part is malformed and no reminder part jams |
| Forms.SavedColumns | app/routes/settings_page.py:137-161 | Each stored column of a saved form: the lists, the webhook removed, replaced by the trimmed text or kept, the switch, hours and lead within their bounds, thresholds and reminders as typed |
| Forms.ParseThresholdsIs | app/routes/settings_page.py:54-60 | A readable threshold field is the numbers from zero up in it, each once, largest first, or 60, 30, 14, 7 and 1 |
| Forms.SettingsAddressesAre | app/routes/settings_page.py:39-42 | An address list is the cleaned parts in order, the empty ones dropped |
| Forms.SuperscriptFails | app/routes/settings_page.py:45-60 | A superscript fails in all four readers |
| Forms.DashesFail | app/routes/settings_page.py:54-60 | A concrete field that cannot be read |
| Forms.UntouchedSettings | app/routes/settings_page.py:137-192 | Saving the settings as shown re-issues no invite, and changes nothing at all iff no stored address has a ragged end |
| Forms.UpdateReadIff | app/routes/certificates.py:377-391 | A certificate's form fails to save iff its lead or a part of one of its day lists passes for a number and cannot be converted |
| Forms.LongNumberFails | app/routes/certificates.py:377-391 | A numeral of more than 4300 digits fails |
| Forms.NumberIsStable | app/routes/certificates.py:386-391 | Whatever was typed, if it could be read, the number shown reads back as the number stored |
| Forms.OptionalIntIs | app/routes/certificates.py:386-391 | A readable number field is none, the number typed, or 3650 if that is more |
| Forms.AddressesAre | app/services.py:446-448 | A record's own people are the cleaned parts in order, the empty ones dropped |
| Forms.AddressesBack | app/routes/certificates.py:354 | A certificate's own people, shown and read again, come back iff none has a ragged end |
| Forms.UpdateFits | app/services.py:411-453 | Whatever a form that can be read says, the record it leaves is one the round trips apply to |
| Forms.UntouchedCertificate | app/routes/certificates.py:338-383 | Saving a certificate's form as shown changes nothing and publishes nothing iff neither the owner nor any of its people has a ragged end (or, for publishing, it is archived) |
| Forms.CutAddress | app/formatting.py:150-157 | An address cut off right after a blank is stored so, and changes when saved again |
| Text.CleanTextIs | app/formatting.py:150-157 | Cleaned text is the trimmed text without control characters, cut at 200 |

## Left out

- HTTP routing, templates, sign-in tokens, CSRF signing and start-up checks: plumbing or library cryptography.
- The contents of emails and cards, MIME and iCalendar bytes: replaced by oracles and abstract messages.
- Parsing of certificates, PKCS#7 and PKCS#12: foreign code; a certificate is its names, expiry and bytes.
- Test sends: they bypass the log and the sequence counter.
- SQL sessions: tables are maps keyed by their unique constraints, and a rollback has nothing to drop because every write is committed.
- The audit trail, labels, environments and notes of a record: none of the modelled decisions read them.
- Log columns for the error text and the time, and the text summary of a job run.
- Text beyond Latin-1 in forms and addresses: its digits, blanks and letter case are not modelled.
- The lock in the sign-in memory and the back-off pauses between Teams requests: no effect on the results.
