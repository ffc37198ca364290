/** The routes and services that change the records and the calendar rows in place. */
module Service {
  import opened Common
  import opened Model
  import opened Text
  import opened Calendar
  import opened DayLists
  import opened Forms
  import Reg = Registry
  import Lifecycle

  class NotAfter {
    var certs: map<int, Cert>
    var nextId: int
    var settings: Settings
    var invites: map<Uid, Invite>
    var outbox: seq<Envelope>
    /** What the mail provider will say to each message in turn. */
    const mail: Mail

    /** The calendar rows this installation opened with. */
    ghost const start: map<Uid, Invite>

    /** Opens an installation on the records and rows it has stored; nothing has been sent yet. */
    constructor (reg: Reg.Registry, rows: map<Uid, Invite>, mail: Mail)
      requires Reg.RegistryOk(reg)
      ensures Records() == reg && CalendarDesk() == Desk(rows, []) && this.mail == mail && start == rows && Valid()
    {
      certs, nextId, settings := reg.certs, reg.nextId, reg.settings;
      invites, outbox := rows, [];
      this.mail, start := mail, rows;
    }

    ghost function Records(): Reg.Registry
      reads this
    {
      Reg.Registry(certs, nextId, settings)
    }

    ghost function CalendarDesk(): Desk
      reads this
    {
      Desk(invites, outbox)
    }

    ghost function Now(): Lifecycle.Board
      reads this
    {
      Lifecycle.Board(Records(), CalendarDesk())
    }

    /** The records are consistent, and every event's messages are numbered and mirrored by its row. */
    ghost predicate Valid()
      reads this
    {
      Lifecycle.Sound(Now()) && Numbered(start, CalendarDesk())
    }

    // -------------------------------------------------------------- invites

    /** One message for each kind of event asked for, unless nobody can be mailed. */
    method SendInvites(cert: Cert, verb: Method, kinds: seq<Kind>)
      modifies this`invites, this`outbox
      ensures CalendarDesk() == Calendar.SendInvites(old(CalendarDesk()), cert, settings, verb, kinds, mail)
      decreases if verb == Cancel then 0 else 1, 1
    {
      var recipients := CalendarRecipientsFor(cert, settings);
      if recipients == [] || !settings.emailConfigured {
        return;
      }
      if verb != Cancel && Renew !in kinds {
        RetireSeparateRenewalEvent(cert);
      }
      ghost var goal := SendKinds(CalendarDesk(), cert, kinds, verb, recipients, settings, mail);
      for k := 0 to |kinds|
        invariant SendKinds(CalendarDesk(), cert, kinds[k..], verb, recipients, settings, mail) == goal
      {
        assert kinds[k..][1..] == kinds[k + 1..];
        SendKind(cert, kinds[k], verb, recipients);
      }
    }

    /** Send one event and record what became of it; nothing to cancel, nothing to send. */
    method SendKind(cert: Cert, kind: Kind, verb: Method, recipients: seq<string>)
      modifies this`invites, this`outbox
      ensures CalendarDesk() == SendOne(old(CalendarDesk()), cert, kind, verb, recipients, settings, mail)
    {
      var uid := Uid(cert.id, kind);
      if verb == Cancel && uid !in invites {
        return;
      }
      var sequence := if uid in invites then invites[uid].sequence + 1 else 0;
      var event := BuildCalendar(cert, kind, sequence, verb, recipients, settings);
      var delivered := mail(|outbox|);
      SendOneIs(CalendarDesk(), cert, kind, verb, recipients, settings, mail, event);
      Record(event, recipients, delivered);
    }

    /** The attempted message goes to the outbox and the event's row repeats it. */
    method Record(event: Event, recipients: seq<string>, delivered: bool)
      modifies this`invites, this`outbox
      ensures CalendarDesk() == Post(old(CalendarDesk()), event, recipients, delivered)
    {
      outbox := outbox + [Envelope(event, delivered)];
      invites := invites[event.uid := Invite(event.sequence, event.verb, event.date, recipients, delivered,
          event.verb == Cancel)];
    }

    /** A publication first takes back the separate renewal event, unless its row says that was done. */
    method RetireSeparateRenewalEvent(cert: Cert)
      modifies this`invites, this`outbox
      ensures CalendarDesk() == RetireRenewal(old(CalendarDesk()), cert, settings, mail)
      decreases 1, 0
    {
      var uid := Uid(cert.id, Renew);
      if uid !in invites || invites[uid].cancelled {
        return;
      }
      SendInvites(cert, Cancel, [Renew]);
    }

    method CancelInvites(cert: Cert)
      modifies this`invites, this`outbox
      ensures CalendarDesk() == Cancelling(old(CalendarDesk()), cert, settings, mail)
    {
      SendInvites(cert, Cancel, [Expiry, Renew]);
    }

    /** Publish a record's event as the record and the settings now stand. */
    method Announce(id: int)
      requires id in certs
      modifies this`invites, this`outbox
      ensures CalendarDesk() == Lifecycle.Mailout(old(CalendarDesk()), Records(), [Reg.Announce(id)], mail)
    {
      Lifecycle.OneMailing(CalendarDesk(), Records(), Reg.Announce(id), mail);
      SendInvites(certs[id], Publish, [Expiry]);
    }

    /** Withdraw a record's events. */
    method Withdraw(id: int)
      requires id in certs
      modifies this`invites, this`outbox
      ensures CalendarDesk() == Lifecycle.Mailout(old(CalendarDesk()), Records(), [Reg.Withdraw(id)], mail)
    {
      Lifecycle.OneMailing(CalendarDesk(), Records(), Reg.Withdraw(id), mail);
      CancelInvites(certs[id]);
    }

    // -------------------------------------------------------------- lifecycle

    /**
     * What each call leaves: the records the operation specifies, with its
     * mailings sent; records still consistent and messages still numbered.
     * `Lifecycle.LiveStep` says which calendars are then true.
     */
    twostate predicate Performed(op: Reg.Op, result: Reg.Result)
      reads this
    {
      && result == Reg.Apply(old(Records()), op).result
      && Now() == Lifecycle.Next(old(Now()), op, mail)
      && Valid()
    }

    twostate lemma StaysValid(op: Reg.Op)
      requires old(Valid()) && Now() == Lifecycle.Next(old(Now()), op, mail)
      ensures Valid()
    {
      Lifecycle.SoundStep(old(Now()), op, mail);
      Lifecycle.NextNumbered(start, old(Now()), op, mail);
    }

    method FindByFingerprint(fingerprint: string) returns (found: Option<int>)
      ensures found == Reg.FindByFingerprint(Records(), fingerprint)
    {
      var id := 1;
      while id < nextId
        invariant Reg.FindFrom(certs, fingerprint, id, nextId) == Reg.FindByFingerprint(Records(), fingerprint)
        decreases nextId - id
      {
        if id in certs && certs[id].fingerprint == Some(fingerprint) {
          return Some(id);
        }
        id := id + 1;
      }
      return None;
    }

    /** Registers an uploaded certificate, or finds the record it already has. */
    method CreateFromFacts(facts: Reg.Facts, owner: string) returns (id: int, created: bool)
      modifies this`certs, this`nextId
      ensures (Records(), id, created) == Reg.CreateFromFacts(old(Records()), facts, owner)
    {
      var existing := FindByFingerprint(facts.fingerprint);
      if existing.Some? {
        return existing.value, false;
      }
      id, created := nextId, true;
      certs := certs[id := Reg.NewCert(id, facts.notAfter, owner, Some(facts.fingerprint))];
      nextId := nextId + 1;
    }

    method Create(facts: Reg.Facts, owner: string) returns (result: Reg.Result)
      requires Valid()
      modifies this
      ensures Performed(Reg.Create(facts, owner), result)
    {
      var id, created := CreateFromFacts(facts, owner);
      if created {
        Announce(id);
      }
      result := if created then Reg.Done else Reg.Linked;
      StaysValid(Reg.Create(facts, owner));
    }

    method CreateManual(notAfter: int, owner: string) returns (result: Reg.Result)
      requires Valid()
      modifies this
      ensures Performed(Reg.CreateManual(notAfter, owner), result)
    {
      var id := nextId;
      certs := certs[id := Reg.NewCert(id, notAfter, owner, None)];
      nextId := nextId + 1;
      Announce(id);
      result := Reg.Done;
      StaysValid(Reg.CreateManual(notAfter, owner));
    }

    method Attach(id: int, facts: Reg.Facts, confirm: bool) returns (result: Reg.Result)
      requires Valid()
      modifies this
      ensures Performed(Reg.Attach(id, facts, confirm), result)
    {
      result := AttachFacts(id, facts, confirm);
      if result == Reg.Done {
        Announce(id);
      }
      StaysValid(Reg.Attach(id, facts, confirm));
    }

    /** Upgrades a record, unless the certificate is another's or its date differs unconfirmed. */
    method AttachFacts(id: int, facts: Reg.Facts, confirm: bool) returns (result: Reg.Result)
      modifies this`certs
      ensures result == Reg.AttachResult(old(Records()), id, facts, confirm)
      ensures Records() == Reg.Apply(old(Records()), Reg.Attach(id, facts, confirm)).reg
    {
      if id !in certs {
        return Reg.NotFound;
      }
      var duplicate := FindByFingerprint(facts.fingerprint);
      if duplicate.Some? && duplicate.value != id {
        return Reg.Conflict;
      }
      if certs[id].notAfter != facts.notAfter && !confirm {
        return Reg.Mismatch;
      }
      certs := certs[id := Reg.AttachFacts(certs[id], facts)];
      return Reg.Done;
    }

    /** Registers the successor, archives the record it replaces, moves the calendar over. */
    method RenewCertificate(id: int, facts: Reg.Facts, now: int) returns (result: Reg.Result)
      requires Valid()
      modifies this
      ensures Performed(Reg.Renew(id, facts, now), result)
    {
      if id !in certs {
        result := Reg.NotFound;
      } else if certs[id].fingerprint == Some(facts.fingerprint) {
        result := Reg.Conflict;
      } else {
        var prior := certs[id];
        var successor, created := CreateFromFacts(facts, prior.ownerEmail);
        certs := certs[successor := certs[successor].(extraRecipients := prior.extraRecipients)];
        certs := certs[id := Reg.SupersededBy(prior, successor, now)];
        Lifecycle.TwoMailings(CalendarDesk(), Records(), Reg.Withdraw(id), Reg.Announce(successor), mail);
        Withdraw(id);
        Announce(successor);
        result := Reg.Done;
      }
      StaysValid(Reg.Renew(id, facts, now));
    }

    /**
     * Edits a record from its form, and re-issues its event when its timing or
     * audience changed; nothing happens if one of the numbers cannot be read.
     */
    method UpdateCertificate(id: int, form: CertForm) returns (result: Reading<Reg.Result>)
      requires Valid()
      modifies this
      ensures if id !in old(certs) then result == Read(Reg.NotFound) && Now() == old(Now())
              else if UpdateOp(id, form).Unreadable? then result == Unreadable && Now() == old(Now())
              else result.Read? && Performed(UpdateOp(id, form).value, result.value)
      ensures Valid()
    {
      if id !in certs {
        return Read(Reg.NotFound);
      }
      var op := UpdateOp(id, form);
      if op.Unreadable? {
        return Unreadable;
      }
      var done := UpdateDetails(id, op.value);
      return Read(done);
    }

    method UpdateDetails(id: int, op: Reg.Op) returns (result: Reg.Result)
      requires Valid() && op.Update? && op.id == id
      modifies this
      ensures Performed(op, result)
    {
      if id in certs {
        var before := Reg.TimingOf(certs[id], settings);
        certs := certs[id := Reg.Edited(certs[id], op)];
        var after := Reg.TimingOf(certs[id], settings);
        if before != after && certs[id].status != Archived {
          Announce(id);
        }
        result := Reg.Done;
      } else {
        result := Reg.NotFound;
      }
      StaysValid(op);
    }

    method ArchiveCertificate(id: int, now: int) returns (result: Reg.Result)
      requires Valid()
      modifies this
      ensures Performed(Reg.Archive(id, now), result)
    {
      if id !in certs {
        result := Reg.NotFound;
      } else if certs[id].status == Archived {
        result := Reg.Conflict;
      } else {
        certs := certs[id := certs[id].(status := Archived, archivedAt := Some(now))];
        Withdraw(id);
        result := Reg.Done;
      }
      StaysValid(Reg.Archive(id, now));
    }

    method RestoreCertificate(id: int) returns (result: Reg.Result)
      requires Valid()
      modifies this
      ensures Performed(Reg.Restore(id), result)
    {
      if id in certs {
        certs := certs[id := certs[id].(status := Active, archivedAt := None)];
        Announce(id);
        result := Reg.Done;
      } else {
        result := Reg.NotFound;
      }
      StaysValid(Reg.Restore(id));
    }

    method ResendInvites(id: int) returns (result: Reg.Result)
      requires Valid()
      modifies this
      ensures Performed(Reg.Resend(id), result)
    {
      if id in certs {
        Announce(id);
        result := Reg.Done;
      } else {
        result := Reg.NotFound;
      }
      StaysValid(Reg.Resend(id));
    }

    /**
     * Saves the settings form, or nothing if the webhook is refused or a
     * number cannot be read; a change of calendar timing re-issues every
     * active record's event.
     */
    method SaveSettings(form: SettingsForm, allowed: string -> bool) returns (outcome: Outcome)
      requires Valid()
      modifies this
      ensures outcome == Submit(old(settings), form, allowed)
      ensures if outcome.Saved? then Performed(Reg.Save(outcome.settings), Reg.Done) else Now() == old(Now())
    {
      outcome := ReadForm(form, allowed);
      if outcome.Saved? {
        Adopt(outcome.settings);
      }
    }

    method ReadForm(form: SettingsForm, allowed: string -> bool) returns (outcome: Outcome)
      ensures outcome == Submit(settings, form, allowed)
    {
      var webhook := settings.teamsWebhook;
      if form.removeWebhook {
        webhook := "";
      } else if Strip(form.webhook) != "" {
        webhook := Strip(form.webhook);
        if !allowed(webhook) {
          return WebhookNotAllowed;
        }
      }
      var thresholds := ParseThresholds(form.thresholds);
      if thresholds.Unreadable? {
        return BadNumber;
      }
      var alarms := ParseDays(form.alarmDays, DEFAULT_ALARMS);
      if alarms.Unreadable? {
        return BadNumber;
      }
      return Saved(Submitted(settings, form, webhook, allowed(webhook), thresholds.value, alarms.value));
    }

    method Adopt(next: Settings)
      requires Valid()
      modifies this
      ensures Performed(Reg.Save(next), Reg.Done)
    {
      StoreSettings(next);
      StaysValid(Reg.Save(next));
    }

    /** Stores the new settings; other calendar timings go out to everyone who holds an event. */
    method StoreSettings(next: Settings)
      modifies this
      ensures Now() == Lifecycle.Next(old(Now()), Reg.Save(next), mail)
    {
      Lifecycle.SaveIs(Now(), next, mail);
      var before := (settings.renewLeadDays, settings.alarmDays);
      settings := next;
      if before != (settings.renewLeadDays, settings.alarmDays) {
        ReissueInvites();
      }
    }

    method ReissueInvites()
      modifies this`invites, this`outbox
      ensures CalendarDesk() == Lifecycle.Mailout(old(CalendarDesk()), Records(),
          Reg.Announcements(Reg.ActiveIds(Records())), mail)
    {
      var ids := Reg.ActiveUpTo(certs, nextId);
      ghost var mailings := Reg.Announcements(ids);
      ghost var goal := Lifecycle.Mailout(CalendarDesk(), Records(), mailings, mail);
      for k := 0 to |ids|
        invariant Lifecycle.Mailout(CalendarDesk(), Records(), mailings[k..], mail) == goal
      {
        assert ids[k] in ids;
        assert mailings[k..][0] == Reg.Announce(ids[k]) && mailings[k..][1..] == mailings[k + 1..];
        Lifecycle.OneMailing(CalendarDesk(), Records(), Reg.Announce(ids[k]), mail);
        Announce(ids[k]);
      }
    }
  }
}
