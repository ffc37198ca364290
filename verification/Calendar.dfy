/**
 * Calendar invites: stable identifiers, a SEQUENCE counter per event, and what a
 * receiving client makes of the messages (RFC 5545 section 3.8.7.4, RFC 5546
 * sections 2.1.4 and 2.1.5).
 */
module Calendar {
  import opened Common
  import opened Model
  import opened Text

  datatype Kind = Expiry | Renew
  datatype Method = Publish | Request | Cancel

  /** One event, identified by record and kind; `UidText` is its printed form. */
  datatype Uid = Uid(cert: int, kind: Kind)

  function UidText(uid: Uid): string
    requires uid.cert >= 0
  {
    "cert-" + (Decimal(uid.cert) + KindText(uid.kind))
  }

  function KindText(kind: Kind): (s: string)
    ensures s != [] && s[0] == '-'
  {
    if kind == Expiry then "-expiry@notafter" else "-renew@notafter"
  }

  /** What a client can tell from one message. */
  datatype Event = Event(uid: Uid, sequence: nat, verb: Method, date: int, alarms: seq<int>, attendees: seq<string>)

  /** The stored row of one event. */
  datatype Invite = Invite(sequence: nat, verb: Method, date: int, recipients: seq<string>, sent: bool, cancelled: bool)

  /** An attempted message and whether the mail provider took it. */
  datatype Envelope = Envelope(event: Event, delivered: bool)

  datatype Desk = Desk(invites: map<Uid, Invite>, outbox: seq<Envelope>)

  /** Whether the n-th message ever attempted is taken. */
  type Mail = nat -> bool

  function Max(a: int, b: int): int { if a < b then b else a }

  function EventDateFor(cert: Cert, kind: Kind, renewLead: int): int {
    match kind
    case Expiry => cert.notAfter
    case Renew => cert.notAfter - Max(renewLead, 0)
  }

  function Descending(days: seq<int>): seq<int> { Reverse(SortedSet(Filter(days, d => d > 0))) }

  /** The positive days among these, each once, from the earliest reminder to the latest. */
  lemma DescendingIs(days: seq<int>)
    ensures var r := Descending(days);
            && (forall d :: d in r <==> d > 0 && d in days)
            && (forall i, j :: 0 <= i < j < |r| ==> r[i] > r[j])
  {
    var up := SortedSet(Filter(days, d => d > 0));
    ReverseAt(up);
    ReverseMembers(up);
  }

  function AlarmsFor(renewLead: int, alarmDays: seq<int>): seq<int> { Descending(alarmDays + [renewLead]) }

  /** Each positive reminder once, the renewal lead among them, furthest ahead first. */
  lemma AlarmsAre(renewLead: int, alarmDays: seq<int>)
    ensures var r := AlarmsFor(renewLead, alarmDays);
            && (forall d :: d in r <==> d > 0 && (d == renewLead || d in alarmDays))
            && (forall i, j :: 0 <= i < j < |r| ==> r[i] > r[j])
  {
    DescendingIs(alarmDays + [renewLead]);
  }

  function BuildCalendar(cert: Cert, kind: Kind, sequence: nat, verb: Method, recipients: seq<string>,
      settings: Settings): (r: Event)
    ensures r.uid == Uid(cert.id, kind) && r.sequence == sequence && r.verb == verb
  {
    var renewLead := cert.EffectiveRenewLead(settings);
    var alarmDays := cert.EffectiveAlarms(settings);
    Event(Uid(cert.id, kind), sequence, verb, EventDateFor(cert, kind, renewLead),
          if verb == Cancel then []
          else if kind == Expiry then AlarmsFor(renewLead, alarmDays) else Descending(alarmDays),
          if verb == Request then recipients else [])
  }

  // ---------------------------------------------------------------- sending

  function NextSequence(desk: Desk, uid: Uid): nat {
    if uid in desk.invites then desk.invites[uid].sequence + 1 else 0
  }

  /** The message is attempted, and the event's row says what became of it. */
  function Post(desk: Desk, event: Event, recipients: seq<string>, delivered: bool): Desk {
    Desk(desk.invites[event.uid := Invite(event.sequence, event.verb, event.date, recipients, delivered,
        event.verb == Cancel)],
         desk.outbox + [Envelope(event, delivered)])
  }

  /** Send one event and record it; a cancellation of an event nobody has is dropped. */
  function SendOne(desk: Desk, cert: Cert, kind: Kind, verb: Method, recipients: seq<string>, settings: Settings,
      mail: Mail): Desk {
    var uid := Uid(cert.id, kind);
    if verb == Cancel && uid !in desk.invites then desk
    else Post(desk, BuildCalendar(cert, kind, NextSequence(desk, uid), verb, recipients, settings), recipients,
        mail(|desk.outbox|))
  }

  lemma SendOneIs(desk: Desk, cert: Cert, kind: Kind, verb: Method, recipients: seq<string>, settings: Settings,
      mail: Mail, event: Event)
    requires verb == Cancel ==> Uid(cert.id, kind) in desk.invites
    requires event == BuildCalendar(cert, kind, NextSequence(desk, Uid(cert.id, kind)), verb, recipients, settings)
    ensures SendOne(desk, cert, kind, verb, recipients, settings, mail)
        == Post(desk, event, recipients, mail(|desk.outbox|))
  {
  }

  function SendKinds(desk: Desk, cert: Cert, kinds: seq<Kind>, verb: Method, recipients: seq<string>,
      settings: Settings, mail: Mail): Desk
    decreases |kinds|
  {
    if kinds == [] then desk
    else SendKinds(SendOne(desk, cert, kinds[0], verb, recipients, settings, mail), cert, kinds[1..], verb,
        recipients, settings, mail)
  }

  function SendInvites(desk: Desk, cert: Cert, settings: Settings, verb: Method, kinds: seq<Kind>, mail: Mail): Desk
    decreases if verb == Cancel then 0 else 1, 1
  {
    var recipients := CalendarRecipientsFor(cert, settings);
    if recipients == [] || !settings.emailConfigured then desk
    else
      var ready := if verb != Cancel && Renew !in kinds then RetireRenewal(desk, cert, settings, mail) else desk;
      SendKinds(ready, cert, kinds, verb, recipients, settings, mail)
  }

  /** Withdraw the separate renewal event older installations sent, once. */
  function RetireRenewal(desk: Desk, cert: Cert, settings: Settings, mail: Mail): Desk
    decreases 1, 0
  {
    var uid := Uid(cert.id, Renew);
    if uid !in desk.invites || desk.invites[uid].cancelled then desk
    else SendInvites(desk, cert, settings, Cancel, [Renew], mail)
  }

  function Publishing(desk: Desk, cert: Cert, settings: Settings, mail: Mail): Desk {
    SendInvites(desk, cert, settings, Publish, [Expiry], mail)
  }

  function Cancelling(desk: Desk, cert: Cert, settings: Settings, mail: Mail): Desk {
    SendInvites(desk, cert, settings, Cancel, [Expiry, Renew], mail)
  }

  // ---------------------------------------------------------------- what was sent for one event

  function Attempts(outbox: seq<Envelope>, uid: Uid): seq<Envelope> {
    if outbox == [] then []
    else
      var last := outbox[|outbox| - 1];
      Attempts(outbox[..|outbox| - 1], uid) + (if last.event.uid == uid then [last] else [])
  }

  lemma AttemptsNext(outbox: seq<Envelope>, next: Envelope, uid: Uid)
    ensures Attempts(outbox + [next], uid) == Attempts(outbox, uid) + (if next.event.uid == uid then [next] else [])
  {
    assert (outbox + [next])[..|outbox|] == outbox;
  }

  /** The sequence number the first message of an event carries, given the rows the installation started with. */
  function FirstSequence(start: map<Uid, Invite>, uid: Uid): nat {
    if uid in start then start[uid].sequence + 1 else 0
  }

  /** The row repeats what the message said and whether it was taken. */
  predicate Mirrors(row: Invite, last: Envelope) {
    && row.sequence == last.event.sequence && row.verb == last.event.verb && row.date == last.event.date
    && row.sent == last.delivered && (row.cancelled <==> last.event.verb == Cancel)
  }

  /** Messages of one event are numbered without gap or repeat, and its row is the last of them. */
  ghost predicate NumberedFor(start: map<Uid, Invite>, desk: Desk, uid: Uid) {
    var sent := Attempts(desk.outbox, uid);
    && (forall k :: 0 <= k < |sent| ==>
        sent[k].event.uid == uid && sent[k].event.sequence == FirstSequence(start, uid) + k)
    && (sent == [] ==> (uid in desk.invites <==> uid in start) && (uid in start ==> desk.invites[uid] == start[uid]))
    && (sent != [] ==> uid in desk.invites && Mirrors(desk.invites[uid], sent[|sent| - 1]))
  }

  ghost predicate Numbered(start: map<Uid, Invite>, desk: Desk) {
    forall uid :: NumberedFor(start, desk, uid)
  }

  /** Two desks agree on one event: its messages and its row. */
  ghost predicate Same(desk: Desk, desk': Desk, uid: Uid) {
    && Attempts(desk'.outbox, uid) == Attempts(desk.outbox, uid)
    && (uid in desk'.invites <==> uid in desk.invites)
    && (uid in desk.invites ==> desk'.invites[uid] == desk.invites[uid])
  }

  lemma PostEffect(desk: Desk, event: Event, recipients: seq<string>, delivered: bool, uid: Uid)
    ensures var desk' := Post(desk, event, recipients, delivered);
            if uid != event.uid then Same(desk, desk', uid)
            else Attempts(desk'.outbox, uid) == Attempts(desk.outbox, uid) + [Envelope(event, delivered)]
                 && uid in desk'.invites && Mirrors(desk'.invites[uid], Envelope(event, delivered))
  {
    AttemptsNext(desk.outbox, Envelope(event, delivered), uid);
  }

  lemma PostNumbered(start: map<Uid, Invite>, desk: Desk, event: Event, recipients: seq<string>, delivered: bool)
    requires Numbered(start, desk) && event.sequence == NextSequence(desk, event.uid)
    ensures Numbered(start, Post(desk, event, recipients, delivered))
  {
    forall uid ensures NumberedFor(start, Post(desk, event, recipients, delivered), uid) {
      assert NumberedFor(start, desk, uid);
      PostEffect(desk, event, recipients, delivered, uid);
      NumberedNext(start, desk, Post(desk, event, recipients, delivered), uid, Envelope(event, delivered));
    }
  }

  lemma NumberedNext(start: map<Uid, Invite>, desk: Desk, desk': Desk, uid: Uid, next: Envelope)
    requires NumberedFor(start, desk, uid)
    requires if uid != next.event.uid then Same(desk, desk', uid)
             else && Attempts(desk'.outbox, uid) == Attempts(desk.outbox, uid) + [next]
                  && next.event.sequence == NextSequence(desk, uid)
                  && uid in desk'.invites && Mirrors(desk'.invites[uid], next)
    ensures NumberedFor(start, desk', uid)
  {
  }

  lemma OneNumbered(start: map<Uid, Invite>, desk: Desk, cert: Cert, kind: Kind, verb: Method, recipients: seq<string>,
                    settings: Settings, mail: Mail)
    requires Numbered(start, desk)
    ensures Numbered(start, SendOne(desk, cert, kind, verb, recipients, settings, mail))
  {
    var uid := Uid(cert.id, kind);
    if verb != Cancel || uid in desk.invites {
      PostNumbered(start, desk, BuildCalendar(cert, kind, NextSequence(desk, uid), verb, recipients, settings),
                   recipients, mail(|desk.outbox|));
    }
  }

  lemma OneOthers(desk: Desk, cert: Cert, kind: Kind, verb: Method, recipients: seq<string>, settings: Settings,
      mail: Mail)
    ensures forall uid :: uid != Uid(cert.id, kind) ==>
        Same(desk, SendOne(desk, cert, kind, verb, recipients, settings, mail), uid)
  {
    var event := BuildCalendar(cert, kind, NextSequence(desk, Uid(cert.id, kind)), verb, recipients, settings);
    forall uid | uid != Uid(cert.id, kind)
      ensures Same(desk, SendOne(desk, cert, kind, verb, recipients, settings, mail), uid)
    {
      PostEffect(desk, event, recipients, mail(|desk.outbox|), uid);
    }
  }

  /** One message is appended for the event itself, and the row repeats it. */
  lemma OneOwn(desk: Desk, cert: Cert, kind: Kind, verb: Method, recipients: seq<string>, settings: Settings,
      mail: Mail)
    requires verb == Cancel ==> Uid(cert.id, kind) in desk.invites
    ensures var uid := Uid(cert.id, kind);
            var desk' := SendOne(desk, cert, kind, verb, recipients, settings, mail);
            var last := Envelope(BuildCalendar(cert, kind, NextSequence(desk, uid), verb, recipients, settings),
                mail(|desk.outbox|));
            && Attempts(desk'.outbox, uid) == Attempts(desk.outbox, uid) + [last]
            && uid in desk'.invites && Mirrors(desk'.invites[uid], last)
  {
    PostEffect(desk, BuildCalendar(cert, kind, NextSequence(desk, Uid(cert.id, kind)), verb, recipients, settings),
               recipients, mail(|desk.outbox|), Uid(cert.id, kind));
  }

  lemma {:induction false} KindsNumbered(start: map<Uid, Invite>, desk: Desk, cert: Cert, kinds: seq<Kind>,
                                         verb: Method, recipients: seq<string>, settings: Settings, mail: Mail)
    requires Numbered(start, desk)
    ensures Numbered(start, SendKinds(desk, cert, kinds, verb, recipients, settings, mail))
    decreases |kinds|
  {
    if kinds != [] {
      OneNumbered(start, desk, cert, kinds[0], verb, recipients, settings, mail);
      KindsNumbered(start, SendOne(desk, cert, kinds[0], verb, recipients, settings, mail), cert, kinds[1..], verb,
                    recipients, settings, mail);
    }
  }

  /**
   * Every message of an event, whoever sends it, for whatever reason and
   * whether or not it is taken, carries the next SEQUENCE; and the stored row
   * always repeats the last one.
   */
  lemma InvitesNumbered(start: map<Uid, Invite>, desk: Desk, cert: Cert, settings: Settings, verb: Method,
      kinds: seq<Kind>, mail: Mail)
    requires Numbered(start, desk)
    ensures Numbered(start, SendInvites(desk, cert, settings, verb, kinds, mail))
    decreases if verb == Cancel then 0 else 1
  {
    var recipients := CalendarRecipientsFor(cert, settings);
    if recipients != [] && settings.emailConfigured {
      var ready := if verb != Cancel && Renew !in kinds then RetireRenewal(desk, cert, settings, mail) else desk;
      if verb != Cancel { InvitesNumbered(start, desk, cert, settings, Cancel, [Renew], mail); }
      KindsNumbered(start, ready, cert, kinds, verb, recipients, settings, mail);
    }
  }

  // ---------------------------------------------------------------- what one call does

  predicate CanMail(cert: Cert, settings: Settings) {
    CalendarRecipientsFor(cert, settings) != [] && settings.emailConfigured
  }

  ghost predicate OthersUntouched(desk: Desk, desk': Desk, id: int) {
    forall uid: Uid :: uid.cert != id ==> Same(desk, desk', uid)
  }

  /** The row of an event that was ever sent is still there. */
  ghost predicate Recorded(desk: Desk, uid: Uid) { Attempts(desk.outbox, uid) != [] ==> uid in desk.invites }

  /** The legacy renewal event is withdrawn if there is one, and nothing else is touched. */
  lemma RetireEffect(desk: Desk, cert: Cert, settings: Settings, mail: Mail)
    requires CanMail(cert, settings)
    ensures var ready := RetireRenewal(desk, cert, settings, mail);
            var renewal := Uid(cert.id, Renew);
            && (renewal in ready.invites ==> ready.invites[renewal].cancelled)
            && (Recorded(desk, renewal) ==> Recorded(ready, renewal))
            && forall uid :: uid != renewal ==> Same(desk, ready, uid)
  {
    var ready := RetireRenewal(desk, cert, settings, mail);
    var recipients := CalendarRecipientsFor(cert, settings);
    if ready != desk {
      SendKindsOne(desk, cert, Renew, Cancel, recipients, settings, mail);
      OneOthers(desk, cert, Renew, Cancel, recipients, settings, mail);
      OneOwn(desk, cert, Renew, Cancel, recipients, settings, mail);
    }
  }

  /**
   * Publishing sends exactly one message for the expiry event, PUBLISH on the
   * record's own date with the effective alarms, and leaves any separate
   * renewal event withdrawn.
   */
  lemma PublishEffect(desk: Desk, cert: Cert, settings: Settings, mail: Mail)
    requires CanMail(cert, settings)
    ensures var desk' := Publishing(desk, cert, settings, mail);
            var renewal := Uid(cert.id, Renew);
            && Announced(desk, desk', cert, settings)
            && (renewal in desk'.invites ==> desk'.invites[renewal].cancelled)
            && (Recorded(desk, renewal) ==> Recorded(desk', renewal))
            && OthersUntouched(desk, desk', cert.id)
  {
    var recipients := CalendarRecipientsFor(cert, settings);
    var ready, desk' := RetireRenewal(desk, cert, settings, mail), Publishing(desk, cert, settings, mail);
    RetireEffect(desk, cert, settings, mail);
    PublishIsOne(desk, cert, settings, mail);
    OneOthers(ready, cert, Expiry, Publish, recipients, settings, mail);
    PublishOwn(desk, cert, settings, mail);
    forall uid: Uid | uid.cert != cert.id ensures Same(desk, desk', uid) { SameTwice(desk, ready, desk', uid); }
    assert Same(ready, desk', Uid(cert.id, Renew));
  }

  lemma SameTwice(a: Desk, b: Desk, c: Desk, uid: Uid)
    requires Same(a, b, uid) && Same(b, c, uid)
    ensures Same(a, c, uid)
  {
  }

  /** The one message publishing sends for the expiry event, and the row it leaves. */
  ghost predicate Announced(desk: Desk, desk': Desk, cert: Cert, settings: Settings) {
    var expiry := Uid(cert.id, Expiry);
    exists last: Envelope ::
      && Attempts(desk'.outbox, expiry) == Attempts(desk.outbox, expiry) + [last]
      && last.event == BuildCalendar(cert, Expiry, NextSequence(desk, expiry), Publish,
          CalendarRecipientsFor(cert, settings), settings)
      && expiry in desk'.invites && Mirrors(desk'.invites[expiry], last)
  }

  lemma PublishOwn(desk: Desk, cert: Cert, settings: Settings, mail: Mail)
    requires CanMail(cert, settings)
    ensures Announced(desk, Publishing(desk, cert, settings, mail), cert, settings)
  {
    var ready := RetireRenewal(desk, cert, settings, mail);
    var recipients := CalendarRecipientsFor(cert, settings);
    RetireEffect(desk, cert, settings, mail);
    PublishIsOne(desk, cert, settings, mail);
    assert Same(desk, ready, Uid(cert.id, Expiry));
    AnnouncedOne(desk, ready, cert, recipients, settings, mail);
  }

  lemma AnnouncedOne(desk: Desk, ready: Desk, cert: Cert, recipients: seq<string>, settings: Settings, mail: Mail)
    requires Same(desk, ready, Uid(cert.id, Expiry)) && recipients == CalendarRecipientsFor(cert, settings)
    ensures Announced(desk, SendOne(ready, cert, Expiry, Publish, recipients, settings, mail), cert, settings)
  {
    OneOwn(ready, cert, Expiry, Publish, recipients, settings, mail);
  }

  lemma PublishIsOne(desk: Desk, cert: Cert, settings: Settings, mail: Mail)
    requires CanMail(cert, settings)
    ensures Publishing(desk, cert, settings, mail)
            == SendOne(RetireRenewal(desk, cert, settings, mail), cert, Expiry, Publish,
                CalendarRecipientsFor(cert, settings), settings, mail)
  {
    SendKindsOne(RetireRenewal(desk, cert, settings, mail), cert, Expiry, Publish,
        CalendarRecipientsFor(cert, settings), settings, mail);
  }

  lemma SendKindsOne(desk: Desk, cert: Cert, kind: Kind, verb: Method, recipients: seq<string>, settings: Settings,
      mail: Mail)
    ensures SendKinds(desk, cert, [kind], verb, recipients, settings, mail)
        == SendOne(desk, cert, kind, verb, recipients, settings, mail)
  {
    assert [kind][1..] == [];
  }

  lemma CancelIsTwo(desk: Desk, cert: Cert, settings: Settings, mail: Mail)
    requires CanMail(cert, settings)
    ensures var recipients := CalendarRecipientsFor(cert, settings);
            Cancelling(desk, cert, settings, mail)
            == SendOne(SendOne(desk, cert, Expiry, Cancel, recipients, settings, mail), cert, Renew, Cancel,
                recipients, settings, mail)
  {
    var recipients := CalendarRecipientsFor(cert, settings);
    assert [Expiry, Renew][1..] == [Renew];
    SendKindsOne(SendOne(desk, cert, Expiry, Cancel, recipients, settings, mail), cert, Renew, Cancel, recipients,
        settings, mail);
  }

  /** A CANCEL was appended for an event that has a row; an event without one is left alone. */
  ghost predicate Withdrawn(desk: Desk, desk': Desk, uid: Uid) {
    if uid in desk.invites
    then exists last: Envelope ::
        && Attempts(desk'.outbox, uid) == Attempts(desk.outbox, uid) + [last] && last.event.verb == Cancel
        && uid in desk'.invites && Mirrors(desk'.invites[uid], last)
    else Same(desk, desk', uid)
  }

  lemma OneWithdrawn(desk: Desk, cert: Cert, kind: Kind, recipients: seq<string>, settings: Settings, mail: Mail)
    ensures Withdrawn(desk, SendOne(desk, cert, kind, Cancel, recipients, settings, mail), Uid(cert.id, kind))
  {
    if Uid(cert.id, kind) in desk.invites { OneOwn(desk, cert, kind, Cancel, recipients, settings, mail); }
  }

  /** Cancelling sends one CANCEL for each event the record has, and nothing for one it never had. */
  lemma CancelEffect(desk: Desk, cert: Cert, settings: Settings, mail: Mail)
    requires CanMail(cert, settings)
    ensures var desk' := Cancelling(desk, cert, settings, mail);
            && Withdrawn(desk, desk', Uid(cert.id, Expiry)) && Withdrawn(desk, desk', Uid(cert.id, Renew))
            && OthersUntouched(desk, desk', cert.id)
  {
    var recipients := CalendarRecipientsFor(cert, settings);
    var mid := SendOne(desk, cert, Expiry, Cancel, recipients, settings, mail);
    CancelIsTwo(desk, cert, settings, mail);
    OneOthers(desk, cert, Expiry, Cancel, recipients, settings, mail);
    OneOthers(mid, cert, Renew, Cancel, recipients, settings, mail);
    OneWithdrawn(desk, cert, Expiry, recipients, settings, mail);
    OneWithdrawn(mid, cert, Renew, recipients, settings, mail);
    var desk' := Cancelling(desk, cert, settings, mail);
    assert Same(desk, mid, Uid(cert.id, Renew));
    assert Same(mid, desk', Uid(cert.id, Expiry));
    forall uid: Uid | uid.cert != cert.id ensures Same(desk, desk', uid) { SameTwice(desk, mid, desk', uid); }
  }

  /** Publishing says nothing more about a separate renewal event that is marked withdrawn. */
  lemma PublishLeaves(desk: Desk, cert: Cert, settings: Settings, mail: Mail)
    requires Uid(cert.id, Renew) in desk.invites && desk.invites[Uid(cert.id, Renew)].cancelled
    ensures Same(desk, Publishing(desk, cert, settings, mail), Uid(cert.id, Renew))
  {
    if CanMail(cert, settings) {
      assert RetireRenewal(desk, cert, settings, mail) == desk;
      PublishIsOne(desk, cert, settings, mail);
      OneOthers(desk, cert, Expiry, Publish, CalendarRecipientsFor(cert, settings), settings, mail);
    }
  }

  /**
   * The first publication withdraws the separate renewal event of an older
   * installation with one CANCEL. The row is marked withdrawn even if the mail
   * provider refused that message, and from then on publishing says nothing
   * more about the event, while cancelling the record's events sends another
   * CANCEL for it.
   */
  lemma RetiredOnce(desk: Desk, cert: Cert, settings: Settings, mail: Mail, cert': Cert, settings': Settings,
                    mail': Mail)
    requires CanMail(cert, settings) && cert'.id == cert.id
    requires var renewal := Uid(cert.id, Renew); renewal in desk.invites && !desk.invites[renewal].cancelled
    ensures var desk' := Publishing(desk, cert, settings, mail);
            var renewal := Uid(cert.id, Renew);
            && Withdrawn(desk, desk', renewal)
            && desk'.invites[renewal].cancelled && (desk'.invites[renewal].sent <==> mail(|desk.outbox|))
            && Same(desk', Publishing(desk', cert', settings', mail'), renewal)
            && (CanMail(cert', settings') ==> Withdrawn(desk', Cancelling(desk', cert', settings', mail'), renewal))
  {
    var recipients := CalendarRecipientsFor(cert, settings);
    var ready, desk' := RetireRenewal(desk, cert, settings, mail), Publishing(desk, cert, settings, mail);
    SendKindsOne(desk, cert, Renew, Cancel, recipients, settings, mail);
    OneOwn(desk, cert, Renew, Cancel, recipients, settings, mail);
    PublishIsOne(desk, cert, settings, mail);
    OneOthers(ready, cert, Expiry, Publish, recipients, settings, mail);
    assert Same(ready, desk', Uid(cert.id, Renew));
    PublishLeaves(desk', cert', settings', mail');
    if CanMail(cert', settings') { CancelEffect(desk', cert', settings', mail'); }
  }

  /** Cancelling reaches a provider that has begun to take messages. */
  lemma CancelTaken(desk: Desk, cert: Cert, settings: Settings, mail: Mail)
    requires CanMail(cert, settings) && Uid(cert.id, Renew) in desk.invites
    requires forall n: nat :: n >= |desk.outbox| ==> mail(n)
    ensures var desk' := Cancelling(desk, cert, settings, mail);
            Uid(cert.id, Renew) in desk'.invites && desk'.invites[Uid(cert.id, Renew)].sent
  {
    var recipients := CalendarRecipientsFor(cert, settings);
    var mid := SendOne(desk, cert, Expiry, Cancel, recipients, settings, mail);
    CancelIsTwo(desk, cert, settings, mail);
    assert |mid.outbox| >= |desk.outbox|;
    OneOwn(mid, cert, Renew, Cancel, recipients, settings, mail);
  }

  // ---------------------------------------------------------------- messages, column by column

  /** The record's own lead if it has one, else the settings'. */
  ghost predicate LeadInForce(cert: Cert, settings: Settings, lead: int) {
    match cert.renewLeadDays
    case Some(own) => lead == own
    case None => lead == settings.renewLeadDays
  }

  /** The record's own reminders if it has any list of them, an empty one included, else the settings'. */
  ghost predicate AlarmsInForce(cert: Cert, settings: Settings, days: seq<int>) {
    match cert.alarmDays
    case Some(own) => days == own
    case None => days == settings.alarmDays
  }

  /** Somebody to tell and mail to tell them with. */
  predicate Mailable(cert: Cert, settings: Settings) {
    settings.emailConfigured && CalendarRecipientsFor(cert, settings) != []
  }

  /** One more message was attempted for this event, and the row repeats it. */
  ghost predicate OneMore(desk: Desk, desk': Desk, uid: Uid, last: Envelope, recipients: seq<string>) {
    && Attempts(desk'.outbox, uid) == Attempts(desk.outbox, uid) + [last]
    && last.event.sequence == (if uid in desk.invites then desk.invites[uid].sequence + 1 else 0)
    && uid in desk'.invites
    && desk'.invites[uid] == Invite(last.event.sequence, last.event.verb, last.event.date, recipients, last.delivered,
                                    last.event.verb == Cancel)
  }

  /**
   * What publishing a record says: its own date, the renewal lead and the
   * reminders in force as alarms, each positive one once and the furthest first,
   * to nobody by name; and the row that is kept.
   */
  lemma PublishedColumns(desk: Desk, cert: Cert, settings: Settings, mail: Mail, lead: int, days: seq<int>)
    requires LeadInForce(cert, settings, lead) && AlarmsInForce(cert, settings, days)
    ensures var desk', uid := Publishing(desk, cert, settings, mail), Uid(cert.id, Expiry);
            if Mailable(cert, settings) then
              exists last: Envelope ::
                && OneMore(desk, desk', uid, last, CalendarRecipientsFor(cert, settings))
                && last.event.verb == Publish && last.event.date == cert.notAfter && last.event.attendees == []
                && (forall d :: d in last.event.alarms <==> d > 0 && (d == lead || d in days))
                && (forall i, j :: 0 <= i < j < |last.event.alarms| ==> last.event.alarms[i] > last.event.alarms[j])
            else desk' == desk
  {
    if Mailable(cert, settings) {
      var last := PublishedLast(desk, cert, settings, mail);
      MessageIs(cert, Expiry, last.event.sequence, Publish, CalendarRecipientsFor(cert, settings), settings, lead,
                days);
    }
  }

  /**
   * Any message for either event: the expiry event stands on the expiry date and
   * has the lead among its alarms; the old renewal event stands that lead before
   * it and has the reminders alone. A cancellation has no alarms, and only a
   * request names attendees.
   */
  lemma MessageIs(cert: Cert, kind: Kind, sequence: nat, verb: Method, recipients: seq<string>, settings: Settings,
                  lead: int, days: seq<int>)
    requires LeadInForce(cert, settings, lead) && AlarmsInForce(cert, settings, days)
    ensures var event := BuildCalendar(cert, kind, sequence, verb, recipients, settings);
            && event.date == (if kind == Renew && lead > 0 then cert.notAfter - lead else cert.notAfter)
            && event.attendees == (if verb == Request then recipients else [])
            && (forall d :: d in event.alarms <==>
                  verb != Cancel && d > 0 && (d in days || (kind == Expiry && d == lead)))
            && (forall i, j :: 0 <= i < j < |event.alarms| ==> event.alarms[i] > event.alarms[j])
  {
    AlarmsAre(lead, days);
    DescendingIs(days);
  }

  lemma PublishedLast(desk: Desk, cert: Cert, settings: Settings, mail: Mail) returns (last: Envelope)
    requires Mailable(cert, settings)
    ensures OneMore(desk, Publishing(desk, cert, settings, mail), Uid(cert.id, Expiry), last,
                    CalendarRecipientsFor(cert, settings))
    ensures last.event == BuildCalendar(cert, Expiry, last.event.sequence, Publish,
                                        CalendarRecipientsFor(cert, settings), settings)
  {
    var recipients, uid := CalendarRecipientsFor(cert, settings), Uid(cert.id, Expiry);
    var ready := RetireRenewal(desk, cert, settings, mail);
    RetireEffect(desk, cert, settings, mail);
    PublishIsOne(desk, cert, settings, mail);
    assert Same(desk, ready, uid);
    OneOwn(ready, cert, Expiry, Publish, recipients, settings, mail);
    last := Envelope(BuildCalendar(cert, Expiry, NextSequence(ready, uid), Publish, recipients, settings),
                     mail(|ready.outbox|));
  }

  /**
   * What withdrawing a record says for each event it has a row for: CANCEL, with
   * no alarms, on the expiry date or, for the old second event, the lead before it.
   */
  lemma CancelledColumns(desk: Desk, cert: Cert, settings: Settings, mail: Mail, kind: Kind, lead: int)
    requires LeadInForce(cert, settings, lead)
    ensures var desk', uid := Cancelling(desk, cert, settings, mail), Uid(cert.id, kind);
            if Mailable(cert, settings) && uid in desk.invites then
              exists last: Envelope ::
                && OneMore(desk, desk', uid, last, CalendarRecipientsFor(cert, settings))
                && last.event.verb == Cancel && last.event.alarms == [] && last.event.attendees == []
                && last.event.date == (if kind == Renew && lead > 0 then cert.notAfter - lead else cert.notAfter)
            else Same(desk, desk', uid)
  {
    if Mailable(cert, settings) {
      var recipients, uid := CalendarRecipientsFor(cert, settings), Uid(cert.id, kind);
      var mid := SendOne(desk, cert, Expiry, Cancel, recipients, settings, mail);
      CancelIsTwo(desk, cert, settings, mail);
      OneOthers(desk, cert, Expiry, Cancel, recipients, settings, mail);
      OneOthers(mid, cert, Renew, Cancel, recipients, settings, mail);
      var before := if kind == Expiry then desk else mid;
      assert Same(desk, before, uid);
      if uid in desk.invites {
        OneOwn(before, cert, kind, Cancel, recipients, settings, mail);
        var last := Envelope(BuildCalendar(cert, kind, NextSequence(before, uid), Cancel, recipients, settings),
                             mail(|before.outbox|));
        CancelOneMore(desk, before, cert, kind, recipients, settings, mail, last);
        var after := SendOne(before, cert, kind, Cancel, recipients, settings, mail);
        assert Same(after, Cancelling(desk, cert, settings, mail), uid);
      }
    }
  }

  lemma CancelOneMore(desk: Desk, before: Desk, cert: Cert, kind: Kind, recipients: seq<string>, settings: Settings,
                      mail: Mail, last: Envelope)
    requires Uid(cert.id, kind) in desk.invites && Same(desk, before, Uid(cert.id, kind))
    requires last == Envelope(BuildCalendar(cert, kind, NextSequence(before, Uid(cert.id, kind)), Cancel, recipients,
                                            settings), mail(|before.outbox|))
    ensures OneMore(desk, SendOne(before, cert, kind, Cancel, recipients, settings, mail), Uid(cert.id, kind), last,
                    recipients)
  {
    OneOwn(before, cert, kind, Cancel, recipients, settings, mail);
  }

  // ---------------------------------------------------------------- the receiving client

  /** A client replaces an event only by one with a higher SEQUENCE. */
  function Receive(held: map<Uid, Event>, event: Event): map<Uid, Event> {
    if event.uid !in held || held[event.uid].sequence < event.sequence then held[event.uid := event] else held
  }

  function ReceiveAll(held: map<Uid, Event>, arrivals: seq<Event>): map<Uid, Event> {
    if arrivals == [] then held
    else Receive(ReceiveAll(held, arrivals[..|arrivals| - 1]), arrivals[|arrivals| - 1])
  }

  /** Everything that arrives was sent and taken; nothing is said about order, loss or repeats. */
  ghost predicate Genuine(desk: Desk, arrivals: seq<Event>) {
    forall e :: e in arrivals ==> Envelope(e, true) in Attempts(desk.outbox, e.uid)
  }

  /** What the client held before this installation's messages is older than all of them. */
  ghost predicate Older(start: map<Uid, Invite>, held: map<Uid, Event>) {
    forall uid :: uid in held ==> held[uid].uid == uid && held[uid].sequence < FirstSequence(start, uid)
  }

  /** `e` is the newest message for its event among the arrivals. */
  ghost predicate NewestArrival(arrivals: seq<Event>, uid: Uid, e: Event) {
    e in arrivals && e.uid == uid && forall f :: f in arrivals && f.uid == uid ==> f.sequence <= e.sequence
  }

  lemma SameSequenceSameEvent(start: map<Uid, Invite>, desk: Desk, a: Envelope, b: Envelope, uid: Uid)
    requires Numbered(start, desk)
    requires a in Attempts(desk.outbox, uid) && b in Attempts(desk.outbox, uid) && a.event.sequence == b.event.sequence
    ensures a == b
  {
    assert NumberedFor(start, desk, uid);
    var sent := Attempts(desk.outbox, uid);
    var i :| 0 <= i < |sent| && sent[i] == a;
    var j :| 0 <= j < |sent| && sent[j] == b;
  }

  /** For this event the client shows the newest arrival, or what it held if none arrived. */
  ghost predicate ShowsNewest(held: map<Uid, Event>, arrivals: seq<Event>, shown: map<Uid, Event>, uid: Uid) {
    if exists e :: e in arrivals && e.uid == uid
    then uid in shown && NewestArrival(arrivals, uid, shown[uid])
    else (uid in shown <==> uid in held) && (uid in held ==> shown[uid] == held[uid])
  }

  /** After any arrivals the client shows, for each event that arrived at all, the newest arrival. */
  lemma {:induction false} ClientShowsNewest(start: map<Uid, Invite>, desk: Desk, held: map<Uid, Event>,
      arrivals: seq<Event>, uid: Uid)
    requires Numbered(start, desk) && Genuine(desk, arrivals) && Older(start, held)
    ensures ShowsNewest(held, arrivals, ReceiveAll(held, arrivals), uid)
  {
    if arrivals != [] {
      var n := |arrivals| - 1;
      var before, last := arrivals[..n], arrivals[n];
      assert forall e :: e in before ==> e in arrivals;
      ClientShowsNewest(start, desk, held, before, uid);
      assert last in arrivals;
      assert NumberedFor(start, desk, last.uid);
      ReceiveNewest(held, before, last, ReceiveAll(held, before), uid);
      assert before + [last] == arrivals;
    }
  }

  lemma ReceiveNewest(held: map<Uid, Event>, before: seq<Event>, last: Event, shown: map<Uid, Event>, uid: Uid)
    requires ShowsNewest(held, before, shown, uid)
    requires last.uid in held ==> held[last.uid].sequence < last.sequence
    ensures ShowsNewest(held, before + [last], Receive(shown, last), uid)
  {
    assert forall e :: e in before + [last] <==> e in before || e == last;
    assert last.uid == uid ==> last in before + [last];
  }

  /**
   * Convergence: two clients that got the same messages, in whatever order and
   * however often, show the same calendar.
   */
  lemma ClientsConverge(start: map<Uid, Invite>, desk: Desk, held: map<Uid, Event>, a: seq<Event>, b: seq<Event>)
    requires Numbered(start, desk) && Older(start, held)
    requires Genuine(desk, a) && Genuine(desk, b) && forall e :: e in a <==> e in b
    ensures ReceiveAll(held, a) == ReceiveAll(held, b)
  {
    var x, y := ReceiveAll(held, a), ReceiveAll(held, b);
    forall uid ensures (uid in x <==> uid in y) && (uid in x ==> x[uid] == y[uid]) {
      ClientShowsNewest(start, desk, held, a, uid);
      ClientShowsNewest(start, desk, held, b, uid);
      if exists e :: e in a && e.uid == uid {
        var e :| e in a && e.uid == uid;
        assert e in b;
        assert x[uid] in a && y[uid] in b;
        SameSequenceSameEvent(start, desk, Envelope(x[uid], true), Envelope(y[uid], true), uid);
      } else {
        assert !exists e :: e in b && e.uid == uid;
      }
    }
  }

  /**
   * If the row says the last message was taken and that message arrived (early,
   * late, repeated or among stale ones), the client shows what the row says.
   */
  lemma ClientMatchesRow(start: map<Uid, Invite>, desk: Desk, held: map<Uid, Event>, arrivals: seq<Event>, uid: Uid)
    requires Numbered(start, desk) && Older(start, held) && Genuine(desk, arrivals)
    requires Attempts(desk.outbox, uid) != [] && uid in desk.invites && desk.invites[uid].sent
    requires var sent := Attempts(desk.outbox, uid); sent[|sent| - 1].event in arrivals
    ensures var sent := Attempts(desk.outbox, uid);
            var shown := ReceiveAll(held, arrivals);
            && uid in shown && shown[uid] == sent[|sent| - 1].event
            && Mirrors(desk.invites[uid], Envelope(shown[uid], true))
  {
    var sent := Attempts(desk.outbox, uid);
    assert NumberedFor(start, desk, uid);
    assert sent[|sent| - 1].event.uid == uid;
    ClientShowsNewest(start, desk, held, arrivals, uid);
    NewestIsLast(start, desk, arrivals, uid, ReceiveAll(held, arrivals)[uid]);
  }

  lemma NewestIsLast(start: map<Uid, Invite>, desk: Desk, arrivals: seq<Event>, uid: Uid, shown: Event)
    requires NumberedFor(start, desk, uid) && Genuine(desk, arrivals) && NewestArrival(arrivals, uid, shown)
    requires var sent := Attempts(desk.outbox, uid); sent != [] && sent[|sent| - 1].event in arrivals
    ensures var sent := Attempts(desk.outbox, uid); shown == sent[|sent| - 1].event
  {
    var sent := Attempts(desk.outbox, uid);
    var k :| 0 <= k < |sent| && sent[k] == Envelope(shown, true);
    assert sent[|sent| - 1].event.sequence <= shown.sequence;
  }

  // ---------------------------------------------------------------- identifiers

  /** Where the first non-digit stands is determined by the text. */
  lemma DigitsEnd(s: string, x: string, y: string)
    requires AllDigits(x) && AllDigits(y)
    requires x < s && y < s && !IsDigit(s[|x|]) && !IsDigit(s[|y|])
    ensures x == y
  {
    assert forall i :: 0 <= i < |x| ==> IsDigit(s[i]);
    assert forall i :: 0 <= i < |y| ==> IsDigit(s[i]);
    assert |x| == |y|;
  }

  /** No two events share a printed identifier. */
  lemma UidTextInjective(a: Uid, b: Uid)
    requires a.cert >= 0 && b.cert >= 0 && UidText(a) == UidText(b)
    ensures a == b
  {
    var rest := UidText(a)[5..];
    var x, y := Decimal(a.cert), Decimal(b.cert);
    assert rest == x + KindText(a.kind);
    assert rest == y + KindText(b.kind);
    DigitsEnd(rest, x, y);
    DecimalReads(a.cert);
    DecimalReads(b.cert);
    KindTextInjective(rest[|x|..], a.kind, b.kind);
  }

  /** The identifiers as clients know them. */
  lemma UidTextLooks(id: nat)
    ensures UidText(Uid(id, Expiry)) == "cert-" + (Decimal(id) + "-expiry@notafter")
    ensures UidText(Uid(id, Renew)) == "cert-" + (Decimal(id) + "-renew@notafter")
  {
  }

  lemma KindTextInjective(s: string, a: Kind, b: Kind)
    requires s == KindText(a) && s == KindText(b)
    ensures a == b
  {
    assert |s| == (if a == Expiry then 16 else 15);
  }
}
