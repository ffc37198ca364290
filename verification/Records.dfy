/** What each operation leaves of the records, field by field. */
module Records {
  import opened Common
  import opened Model
  import opened Text
  import Reg = Registry

  /** A newly registered record: what was submitted, and nothing else set. */
  ghost predicate Fresh(cert: Cert, id: int, notAfter: int, owner: string, fingerprint: Option<string>) {
    && cert.id == id && cert.notAfter == notAfter && cert.ownerEmail == CleanText(owner)
    && cert.fingerprint == fingerprint && (cert.verified <==> fingerprint.Some?)
    && cert.source == (if fingerprint.Some? then Upload else Manual)
    && cert.status == Active && cert.archivedAt.None? && cert.supersededBy.None? && !cert.muted
    && cert.extraRecipients == [] && !cert.replaceDefaults
    && cert.reminderDays.None? && cert.renewLeadDays.None? && cert.alarmDays.None?
  }

  /** The record that has this fingerprint. */
  ghost predicate Holder(reg: Reg.Registry, fingerprint: string, id: int) {
    id in reg.certs && reg.certs[id].fingerprint == Some(fingerprint)
  }

  /** One record added under the next id; every other record, and the settings, as they were. */
  ghost predicate Added(reg: Reg.Registry, reg': Reg.Registry) {
    && reg.nextId in reg'.certs
    && reg' == Reg.Registry(reg.certs[reg.nextId := reg'.certs[reg.nextId]], reg.nextId + 1, reg.settings)
  }

  /** Only this record may have changed. */
  ghost predicate OnlyChanged(reg: Reg.Registry, reg': Reg.Registry, id: int) {
    && id in reg.certs && id in reg'.certs
    && reg' == Reg.Registry(reg.certs[id := reg'.certs[id]], reg.nextId, reg.settings)
  }

  lemma Finds(reg: Reg.Registry, fingerprint: string)
    requires Reg.RegistryOk(reg)
    ensures match Reg.FindByFingerprint(reg, fingerprint)
            case Some(id) => Holder(reg, fingerprint, id) && forall k :: Holder(reg, fingerprint, k) ==> k == id
            case None => forall k :: !Holder(reg, fingerprint, k)
  {
    assert forall k :: k in reg.certs ==> Reg.CertOk(reg, k);
  }

  /** An upload that is known leads to its record and changes nothing; any other is registered and announced. */
  lemma Uploaded(reg: Reg.Registry, facts: Reg.Facts, owner: string)
    requires Reg.RegistryOk(reg)
    ensures var change := Reg.Apply(reg, Reg.Create(facts, owner));
            if exists k :: Holder(reg, facts.fingerprint, k) then change == Reg.Change(reg, [], Reg.Linked)
            else Added(reg, change.reg)
                 && Fresh(change.reg.certs[reg.nextId], reg.nextId, facts.notAfter, owner, Some(facts.fingerprint))
                 && change.mailings == [Reg.Announce(reg.nextId)] && change.result == Reg.Done
  {
    Finds(reg, facts.fingerprint);
  }

  /** A typed date is registered as it is, unverified, and announced. */
  lemma Typed(reg: Reg.Registry, notAfter: int, owner: string)
    ensures var change := Reg.Apply(reg, Reg.CreateManual(notAfter, owner));
            && Added(reg, change.reg)
            && Fresh(change.reg.certs[reg.nextId], reg.nextId, notAfter, owner, None)
            && change.mailings == [Reg.Announce(reg.nextId)] && change.result == Reg.Done
  {
  }

  /**
   * A certificate is attached iff the record exists, no other record has that
   * certificate, and the date is the recorded one or confirmed. Then date and
   * fingerprint are the certificate's, the record counts as a verified upload,
   * and it is announced; nothing else about it changes, nor does any other record.
   */
  lemma Attached(reg: Reg.Registry, id: int, facts: Reg.Facts, confirm: bool)
    requires Reg.RegistryOk(reg)
    ensures var change := Reg.Apply(reg, Reg.Attach(id, facts, confirm));
            var taken := exists k :: k != id && Holder(reg, facts.fingerprint, k);
            if id !in reg.certs then change == Reg.Change(reg, [], Reg.NotFound)
            else if taken then change == Reg.Change(reg, [], Reg.Conflict)
            else if reg.certs[id].notAfter != facts.notAfter && !confirm
            then change == Reg.Change(reg, [], Reg.Mismatch)
            else
              && change.result == Reg.Done && change.mailings == [Reg.Announce(id)] && OnlyChanged(reg, change.reg, id)
              && var prior, after := reg.certs[id], change.reg.certs[id];
                 && after.notAfter == facts.notAfter && after.fingerprint == Some(facts.fingerprint)
                 && after.source == Upload && after.verified
                 && prior == after.(notAfter := prior.notAfter, fingerprint := prior.fingerprint,
                                    source := prior.source, verified := prior.verified)
  {
    Finds(reg, facts.fingerprint);
  }

  /**
   * A record is renewed iff it exists and the certificate is not its own. It is
   * then archived and points to its successor: the record that has the
   * certificate, or a new one with its date and the old record's owner. Either
   * way the successor has the old record's own people, the old event is
   * withdrawn and the successor's announced. No other record changes.
   */
  lemma Renewed(reg: Reg.Registry, id: int, facts: Reg.Facts, now: int)
    requires Reg.RegistryOk(reg)
    ensures var change := Reg.Apply(reg, Reg.Renew(id, facts, now));
            if id !in reg.certs then change == Reg.Change(reg, [], Reg.NotFound)
            else if Holder(reg, facts.fingerprint, id) then change == Reg.Change(reg, [], Reg.Conflict)
            else change.result == Reg.Done && Succeeded(reg, change.reg, change.mailings, id, facts, now)
  {
    Finds(reg, facts.fingerprint);
    if id in reg.certs && !Holder(reg, facts.fingerprint, id) {
      var change := Reg.Apply(reg, Reg.Renew(id, facts, now));
      var heir := change.mailings[1].id;
      assert forall k :: k in reg.certs ==> Reg.CertOk(reg, k);
      assert heir == reg.nextId || Holder(reg, facts.fingerprint, heir);
      var c' := change.reg.certs[heir];
      if heir == reg.nextId { assert c'.(extraRecipients := []).extraRecipients == []; }
    }
  }

  ghost predicate Succeeded(reg: Reg.Registry, reg': Reg.Registry, mailings: seq<Reg.Mailing>, id: int,
                            facts: Reg.Facts, now: int)
    requires id in reg.certs
  {
    exists heir ::
      && (if exists k :: Holder(reg, facts.fingerprint, k) then Holder(reg, facts.fingerprint, heir)
          else heir == reg.nextId)
      && heir != id && mailings == [Reg.Withdraw(id), Reg.Announce(heir)]
      && Replaced(reg, reg', id, heir, facts, now)
  }

  ghost predicate Replaced(reg: Reg.Registry, reg': Reg.Registry, id: int, heir: int, facts: Reg.Facts, now: int)
    requires id in reg.certs
  {
    && id in reg'.certs && heir in reg'.certs
    && var prior, gone, next := reg.certs[id], reg'.certs[id], reg'.certs[heir];
       && reg' == Reg.Registry(reg.certs[heir := next][id := gone],
                               if heir in reg.certs then reg.nextId else reg.nextId + 1, reg.settings)
       && gone.status == Archived && gone.archivedAt == Some(now) && gone.supersededBy == Some(heir)
       && prior == gone.(status := prior.status, archivedAt := prior.archivedAt, supersededBy := prior.supersededBy)
       && next.extraRecipients == prior.extraRecipients
       && if heir in reg.certs
          then reg.certs[heir] == next.(extraRecipients := reg.certs[heir].extraRecipients)
          else Fresh(next.(extraRecipients := []), heir, facts.notAfter, prior.ownerEmail, Some(facts.fingerprint))
  }

  /** What an edit changes about when and to whom a record's event goes. */
  ghost predicate Retimed(reg: Reg.Registry, prior: Cert, after: Cert) {
    || (if prior.renewLeadDays.Some? then prior.renewLeadDays.value else reg.settings.renewLeadDays)
       != (if after.renewLeadDays.Some? then after.renewLeadDays.value else reg.settings.renewLeadDays)
    || (if prior.alarmDays.Some? then prior.alarmDays.value else reg.settings.alarmDays)
       != (if after.alarmDays.Some? then after.alarmDays.value else reg.settings.alarmDays)
    || prior.replaceDefaults != after.replaceDefaults
    || prior.extraRecipients != after.extraRecipients
    || prior.ownerEmail != after.ownerEmail
  }

  /**
   * An edit sets the owner, the own people (empty entries dropped), the
   * replacement and mute switches and the three overrides, and nothing else. The
   * event is published again iff the record is not archived and the lead, the
   * reminders, the replacement switch, the people or the owner came out different.
   */
  lemma Updated(reg: Reg.Registry, op: Reg.Op)
    requires op.Update?
    ensures var change := Reg.Apply(reg, op);
            if op.id !in reg.certs then change == Reg.Change(reg, [], Reg.NotFound)
            else
              && change.result == Reg.Done && OnlyChanged(reg, change.reg, op.id)
              && var prior, after := reg.certs[op.id], change.reg.certs[op.id];
                 && after.ownerEmail == op.owner && after.extraRecipients == Filter(op.extra, x => x != "")
                 && after.replaceDefaults == op.replace && after.muted == op.muted
                 && after.reminderDays == op.reminderDays && after.renewLeadDays == op.renewLead
                 && after.alarmDays == op.alarmDays
                 && prior == after.(ownerEmail := prior.ownerEmail, extraRecipients := prior.extraRecipients,
                                 replaceDefaults := prior.replaceDefaults, muted := prior.muted,
                                 reminderDays := prior.reminderDays, renewLeadDays := prior.renewLeadDays,
                                 alarmDays := prior.alarmDays)
                 && change.mailings == (if prior.status != Archived && Retimed(reg, prior, after)
                                        then [Reg.Announce(op.id)] else [])
  {
  }

  /** Archiving and restoring move a record off and onto the board and change nothing else about it. */
  lemma Moved(reg: Reg.Registry, id: int, now: int)
    ensures var off := Reg.Apply(reg, Reg.Archive(id, now));
            if id !in reg.certs then off == Reg.Change(reg, [], Reg.NotFound)
            else if reg.certs[id].status == Archived then off == Reg.Change(reg, [], Reg.Conflict)
            else
              && off.result == Reg.Done && off.mailings == [Reg.Withdraw(id)] && OnlyChanged(reg, off.reg, id)
              && var prior, after := reg.certs[id], off.reg.certs[id];
                 && after.status == Archived && after.archivedAt == Some(now)
                 && prior == after.(status := prior.status, archivedAt := prior.archivedAt)
    ensures var on := Reg.Apply(reg, Reg.Restore(id));
            if id !in reg.certs then on == Reg.Change(reg, [], Reg.NotFound)
            else
              && on.result == Reg.Done && on.mailings == [Reg.Announce(id)] && OnlyChanged(reg, on.reg, id)
              && var prior, after := reg.certs[id], on.reg.certs[id];
                 && after.status == Active && after.archivedAt.None?
                 && prior == after.(status := prior.status, archivedAt := prior.archivedAt)
  {
  }

  /**
   * New settings leave every record as it was. Each active record is announced
   * once, soonest expiry first, if the lead or the reminders changed; otherwise
   * nobody is.
   */
  lemma Resettled(reg: Reg.Registry, settings: Settings)
    requires Reg.RegistryOk(reg)
    ensures var change := Reg.Apply(reg, Reg.Save(settings));
            var was := reg.settings;
            && change.reg == Reg.Registry(reg.certs, reg.nextId, settings) && change.result == Reg.Done
            && if was.renewLeadDays == settings.renewLeadDays && was.alarmDays == settings.alarmDays
               then change.mailings == []
               else
                 && (forall m :: m in change.mailings <==>
                       m.Announce? && m.id in reg.certs && reg.certs[m.id].status == Active)
                 && (forall i, j :: 0 <= i < j < |change.mailings| ==> change.mailings[i].id != change.mailings[j].id)
                 && (forall i, j :: 0 <= i < j < |change.mailings| ==>
                       && change.mailings[i].id in reg.certs && change.mailings[j].id in reg.certs
                       && reg.certs[change.mailings[i].id].notAfter <= reg.certs[change.mailings[j].id].notAfter)
  {
    var change, ids := Reg.Apply(reg, Reg.Save(settings)), Reg.ActiveIds(reg);
    assert forall k :: k in reg.certs ==> Reg.CertOk(reg, k);
    if change.mailings != [] { AnnouncedIds(ids, change.mailings); }
  }

  lemma AnnouncedIds(ids: seq<int>, mailings: seq<Reg.Mailing>)
    requires mailings == Reg.Announcements(ids)
    ensures forall m :: m in mailings <==> m.Announce? && m.id in ids
  {
    forall m: Reg.Mailing | m.Announce? && m.id in ids ensures m in mailings {
      var k :| 0 <= k < |ids| && ids[k] == m.id;
      assert mailings[k] == m;
    }
  }
}
