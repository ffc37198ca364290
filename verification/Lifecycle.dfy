/** Calendars keep up with the board over every lifecycle and settings history. */
module Lifecycle {
  import opened Common
  import opened Text
  import opened Model
  import opened Calendar
  import opened Registry

  function MailOne(desk: Desk, reg: Registry, mailing: Mailing, mail: Mail): Desk {
    if mailing.id !in reg.certs then desk
    else if mailing.Announce? then Publishing(desk, reg.certs[mailing.id], reg.settings, mail)
    else Cancelling(desk, reg.certs[mailing.id], reg.settings, mail)
  }

  /** Send the messages an operation calls for, with the settings and records it left. */
  function Mailout(desk: Desk, reg: Registry, mailings: seq<Mailing>, mail: Mail): Desk
    decreases |mailings|
  {
    if mailings == [] then desk else Mailout(MailOne(desk, reg, mailings[0], mail), reg, mailings[1..], mail)
  }

  lemma OneMailing(desk: Desk, reg: Registry, a: Mailing, mail: Mail)
    ensures Mailout(desk, reg, [a], mail) == MailOne(desk, reg, a, mail)
  {
    assert [a][1..] == [];
  }

  lemma TwoMailings(desk: Desk, reg: Registry, a: Mailing, b: Mailing, mail: Mail)
    ensures Mailout(desk, reg, [a, b], mail) == Mailout(Mailout(desk, reg, [a], mail), reg, [b], mail)
  {
    assert [a, b][1..] == [b];
    OneMailing(desk, reg, a, mail);
  }

  /** Records and calendar rows together. */
  datatype Board = Board(reg: Registry, desk: Desk)

  function Next(board: Board, op: Op, mail: Mail): Board {
    var change := Apply(board.reg, op);
    Board(change.reg, Mailout(board.desk, change.reg, change.mailings, mail))
  }

  /** Saving settings mails every active record or nobody. */
  lemma SaveIs(board: Board, settings: Settings, mail: Mail)
    ensures var reg := board.reg.(settings := settings);
            var was := board.reg.settings;
            Next(board, Save(settings), mail)
            == Board(reg, if (was.renewLeadDays, was.alarmDays) != (settings.renewLeadDays, settings.alarmDays)
                          then Mailout(board.desk, reg, Announcements(ActiveIds(reg)), mail) else board.desk)
  {
  }

  // ---------------------------------------------------------------- numbering, whatever happens

  lemma {:induction false} MailoutNumbered(start: map<Uid, Invite>, desk: Desk, reg: Registry,
      mailings: seq<Mailing>, mail: Mail)
    requires Numbered(start, desk)
    ensures Numbered(start, Mailout(desk, reg, mailings, mail))
    decreases |mailings|
  {
    if mailings != [] {
      var first := mailings[0];
      if first.id in reg.certs {
        InvitesNumbered(start, desk, reg.certs[first.id], reg.settings, if first.Announce? then Publish else Cancel,
                        if first.Announce? then [Expiry] else [Expiry, Calendar.Renew], mail);
      }
      MailoutNumbered(start, MailOne(desk, reg, first, mail), reg, mailings[1..], mail);
    }
  }

  function History(board: Board, ops: seq<Op>, mail: Mail): Board {
    if ops == [] then board else Next(History(board, ops[..|ops| - 1], mail), ops[|ops| - 1], mail)
  }

  /**
   * Whatever operations are performed and whichever messages fail, every event's messages stay
   * numbered and its row stays the last of them.
   */
  lemma {:induction false} HistoryNumbered(start: map<Uid, Invite>, board: Board, ops: seq<Op>, mail: Mail)
    requires Numbered(start, board.desk)
    ensures Numbered(start, History(board, ops, mail).desk)
  {
    if ops != [] {
      HistoryNumbered(start, board, ops[..|ops| - 1], mail);
      NextNumbered(start, History(board, ops[..|ops| - 1], mail), ops[|ops| - 1], mail);
    }
  }

  lemma NextNumbered(start: map<Uid, Invite>, board: Board, op: Op, mail: Mail)
    requires Numbered(start, board.desk)
    ensures Numbered(start, Next(board, op, mail).desk)
  {
    var change := Apply(board.reg, op);
    MailoutNumbered(start, board.desk, change.reg, change.mailings, mail);
  }

  // ---------------------------------------------------------------- what the last message says

  function Sent(desk: Desk, id: int): seq<Envelope> { Attempts(desk.outbox, Uid(id, Expiry)) }

  /** The last message for an event is PUBLISH on this date with these alarms. */
  ghost predicate Published(desk: Desk, id: int, date: int, alarms: seq<int>) {
    var sent := Sent(desk, id);
    && sent != [] && Uid(id, Expiry) in desk.invites
    && var event := sent[|sent| - 1].event;
       event.verb == Publish && event.date == date && event.alarms == alarms
  }

  /** A record's event is published on its own date with its effective alarms. */
  ghost predicate Shows(desk: Desk, cert: Cert, settings: Settings) {
    Published(desk, cert.id, cert.notAfter,
        AlarmsFor(cert.EffectiveRenewLead(settings), cert.EffectiveAlarms(settings)))
  }

  /** The last message for a record's event is CANCEL. */
  ghost predicate Cancelled(desk: Desk, id: int) {
    var sent := Sent(desk, id);
    sent != [] && Uid(id, Expiry) in desk.invites && sent[|sent| - 1].event.verb == Cancel
  }

  ghost predicate LiveFor(desk: Desk, cert: Cert, settings: Settings) {
    if cert.status == Active then Shows(desk, cert, settings) else Cancelled(desk, cert.id)
  }

  /** This record's calendar keeps up with the board. */
  ghost predicate LiveIn(board: Board, id: int) {
    id in board.reg.certs ==> LiveFor(board.desk, board.reg.certs[id], board.reg.settings)
  }

  /** Consistent records, and no message about a record that was never registered. */
  ghost predicate Sound(board: Board) {
    RegistryOk(board.reg) && forall id :: id !in board.reg.certs ==> Sent(board.desk, id) == []
  }

  ghost predicate DistinctMailings(mailings: seq<Mailing>) {
    forall i, j :: 0 <= i < j < |mailings| ==> mailings[i].id != mailings[j].id
  }

  predicate Mentions(mailings: seq<Mailing>, id: int) { Announce(id) in mailings || Withdraw(id) in mailings }

  lemma AnnounceShows(desk: Desk, cert: Cert, settings: Settings, mail: Mail)
    requires CanMail(cert, settings)
    ensures Shows(Publishing(desk, cert, settings, mail), cert, settings)
    ensures OthersUntouched(desk, Publishing(desk, cert, settings, mail), cert.id)
  {
    PublishEffect(desk, cert, settings, mail);
    var desk', expiry := Publishing(desk, cert, settings, mail), Uid(cert.id, Expiry);
    var last: Envelope :| Attempts(desk'.outbox, expiry) == Attempts(desk.outbox, expiry) + [last]
                          && last.event == BuildCalendar(cert, Expiry, NextSequence(desk, expiry), Publish,
                                                         CalendarRecipientsFor(cert, settings), settings);
    var sent := Sent(desk', cert.id);
    assert sent[|sent| - 1] == last;
  }

  lemma WithdrawCancels(desk: Desk, cert: Cert, settings: Settings, mail: Mail)
    requires CanMail(cert, settings)
    ensures Uid(cert.id, Expiry) in desk.invites ==> Cancelled(Cancelling(desk, cert, settings, mail), cert.id)
    ensures OthersUntouched(desk, Cancelling(desk, cert, settings, mail), cert.id)
  {
    CancelEffect(desk, cert, settings, mail);
    if Uid(cert.id, Expiry) in desk.invites {
      var desk', expiry := Cancelling(desk, cert, settings, mail), Uid(cert.id, Expiry);
      var last: Envelope :| Attempts(desk'.outbox, expiry) == Attempts(desk.outbox, expiry) + [last]
          && last.event.verb == Cancel;
      var sent := Sent(desk', cert.id);
      assert sent[|sent| - 1] == last;
    }
  }

  /** Whether mail about this record goes anywhere. */
  predicate Reached(reg: Registry, id: int) { id in reg.certs && CanMail(reg.certs[id], reg.settings) }

  lemma MailingEffect(desk: Desk, reg: Registry, mailing: Mailing, mail: Mail, id: int)
    requires RegistryOk(reg)
    ensures var desk' := MailOne(desk, reg, mailing, mail);
            if mailing.id == id && Reached(reg, id)
            then (if mailing.Announce? then Shows(desk', reg.certs[id], reg.settings)
                  else Uid(id, Expiry) in desk.invites ==> Cancelled(desk', id))
            else Same(desk, desk', Uid(id, Expiry))
  {
    if Reached(reg, mailing.id) {
      assert CertOk(reg, mailing.id);
      if mailing.Announce? { AnnounceShows(desk, reg.certs[mailing.id], reg.settings, mail); }
      else { WithdrawCancels(desk, reg.certs[mailing.id], reg.settings, mail); }
    }
  }

  lemma SameKeeps(desk: Desk, desk': Desk, cert: Cert, settings: Settings)
    requires Same(desk, desk', Uid(cert.id, Expiry))
    ensures Shows(desk, cert, settings) ==> Shows(desk', cert, settings)
    ensures Cancelled(desk, cert.id) ==> Cancelled(desk', cert.id)
  {
  }

  /** What a mailout leaves for one record: its announcement, its cancellation, or what was there. */
  lemma {:induction false} MailoutEffect(desk: Desk, reg: Registry, mailings: seq<Mailing>, mail: Mail, id: int)
    requires RegistryOk(reg) && DistinctMailings(mailings)
    ensures var desk' := Mailout(desk, reg, mailings, mail);
            && (Reached(reg, id) && Announce(id) in mailings ==> Shows(desk', reg.certs[id], reg.settings))
            && (Reached(reg, id) && Withdraw(id) in mailings && Uid(id, Expiry) in desk.invites ==>
                  Cancelled(desk', id))
            && (!Reached(reg, id) || !Mentions(mailings, id) ==> Same(desk, desk', Uid(id, Expiry)))
    decreases |mailings|
  {
    if mailings != [] {
      var first, rest := mailings[0], mailings[1..];
      assert forall m :: m in mailings <==> m == first || m in rest;
      var desk1 := MailOne(desk, reg, first, mail);
      MailingEffect(desk, reg, first, mail, id);
      MailoutEffect(desk1, reg, rest, mail, id);
      if first.id == id && Reached(reg, id) {
        NotAgain(mailings);
        assert CertOk(reg, id);
        SameKeeps(desk1, Mailout(desk1, reg, rest, mail), reg.certs[id], reg.settings);
      }
    }
  }

  lemma NotAgain(mailings: seq<Mailing>)
    requires DistinctMailings(mailings) && mailings != []
    ensures forall m :: m in mailings[1..] ==> m.id != mailings[0].id
  {
    forall m | m in mailings[1..] ensures m.id != mailings[0].id {
      var k :| 0 <= k < |mailings[1..]| && mailings[1..][k] == m;
      assert mailings[k + 1] == m;
    }
  }

  // ---------------------------------------------------------------- when an operation keeps calendars true

  /**
   * The calls that announce this record although it is archived: resending or
   * attaching on it, and renewing another record onto it.
   */
  predicate Strays(reg: Registry, op: Op, id: int) {
    id in reg.certs && reg.certs[id].status == Archived
    && match op
       case Resend(k) => k == id
       case Attach(k, facts, confirm) => k == id && AttachResult(reg, k, facts, confirm) == Done
       case Renew(_, facts, _) => Replaces(reg, op) && FindByFingerprint(reg, facts.fingerprint) == Some(id)
       case _ => false
  }

  /** What the event of an active record shows: its date and its reminders. */
  function Shown(cert: Cert, settings: Settings): (int, seq<int>) {
    (cert.notAfter, AlarmsFor(cert.EffectiveRenewLead(settings), cert.EffectiveAlarms(settings)))
  }

  /** The record is on the same side of the archive and its event, if live, shows the same. */
  ghost predicate Unmoved(reg: Registry, reg': Registry, id: int)
    requires id in reg.certs && id in reg'.certs
  {
    var c, c' := reg.certs[id], reg'.certs[id];
    c'.status == c.status && (c.status == Active ==> Shown(c', reg'.settings) == Shown(c, reg.settings))
  }

  /**
   * When a call keeps this record's calendar true: if the record can be mailed
   * once the call has changed it, the call must not announce it from the
   * archive; if it cannot, the call must not have changed what its event shows.
   */
  ghost predicate Keeps(reg: Registry, op: Op, id: int) {
    var reg' := Apply(reg, op).reg;
    id in reg'.certs ==>
      if CanMail(reg'.certs[id], reg'.settings) then !Strays(reg, op, id) else id in reg.certs && Unmoved(reg, reg', id)
  }

  /**
   * A record is announced (from the archive exactly in the stray calls),
   * withdrawn because it is archived now, or not mentioned because nothing its
   * event shows changed.
   */
  ghost predicate Covered(reg: Registry, op: Op, id: int) {
    var change := Apply(reg, op);
    && DistinctMailings(change.mailings)
    && (id in change.reg.certs ==>
          if Announce(id) in change.mailings
          then Withdraw(id) !in change.mailings && (Strays(reg, op, id) <==> change.reg.certs[id].status == Archived)
          else !Strays(reg, op, id)
               && if Withdraw(id) in change.mailings then id in reg.certs && change.reg.certs[id].status == Archived
                  else id in reg.certs && Unmoved(reg, change.reg, id))
  }

  lemma SaveCovers(reg: Registry, op: Op, id: int)
    requires RegistryOk(reg) && op.Save?
    ensures Covered(reg, op, id)
  {
    var change := Apply(reg, op);
    var ids := ActiveIds(change.reg);
    if id in change.reg.certs {
      assert CertOk(reg, id);
      if change.mailings != [] && reg.certs[id].status == Active {
        assert id in ids;
        var k :| 0 <= k < |ids| && ids[k] == id;
        assert change.mailings[k] == Announce(id);
      }
      if Announce(id) in change.mailings {
        var k :| 0 <= k < |ids| && change.mailings[k] == Announce(id);
        assert id in ids;
      }
    }
  }

  lemma RenewCovers(reg: Registry, op: Op, id: int)
    requires RegistryOk(reg) && op.Renew?
    ensures Covered(reg, op, id)
  {
    var change := Apply(reg, op);
    if change.mailings != [] {
      var heir := change.mailings[1].id;
      assert change.mailings == [Withdraw(op.id), Announce(heir)];
      assert CertOk(reg, op.id);
      assert heir != op.id;
    }
  }

  lemma CreateCovers(reg: Registry, op: Op, id: int)
    requires RegistryOk(reg) && (op.Create? || op.CreateManual?)
    ensures Covered(reg, op, id)
  {
    assert id in reg.certs ==> CertOk(reg, id);
    if Apply(reg, op).mailings != [] { assert Apply(reg, op).mailings == [Announce(reg.nextId)]; }
  }

  lemma AttachCovers(reg: Registry, op: Op, id: int)
    requires RegistryOk(reg) && op.Attach?
    ensures Covered(reg, op, id)
  {
    assert id in reg.certs ==> CertOk(reg, id);
    if Apply(reg, op).mailings != [] { assert Apply(reg, op).mailings == [Announce(op.id)]; }
  }

  lemma EditCovers(reg: Registry, op: Op, id: int)
    requires RegistryOk(reg) && (op.Update? || op.Resend?)
    ensures Covered(reg, op, id)
  {
    assert id in reg.certs ==> CertOk(reg, id);
    if Apply(reg, op).mailings != [] { assert Apply(reg, op).mailings == [Announce(op.id)]; }
  }

  lemma ArchiveCovers(reg: Registry, op: Op, id: int)
    requires RegistryOk(reg) && (op.Archive? || op.Restore?)
    ensures Covered(reg, op, id)
  {
    assert id in reg.certs ==> CertOk(reg, id);
    if Apply(reg, op).mailings != [] {
      assert Apply(reg, op).mailings == [if op.Archive? then Withdraw(op.id) else Announce(op.id)];
    }
  }

  lemma OpCovers(reg: Registry, op: Op, id: int)
    requires RegistryOk(reg)
    ensures Covered(reg, op, id)
  {
    if op.Save? { SaveCovers(reg, op, id); }
    else if op.Renew? { RenewCovers(reg, op, id); }
    else if op.Create? || op.CreateManual? { CreateCovers(reg, op, id); }
    else if op.Attach? { AttachCovers(reg, op, id); }
    else if op.Update? || op.Resend? { EditCovers(reg, op, id); }
    else { ArchiveCovers(reg, op, id); }
  }

  /**
   * The live-event invariant, record by record and operation by operation. The
   * last message about an active record was PUBLISH on its date with its
   * effective alarms, that about an archived one was CANCEL; a call leaves this
   * so if and only if it keeps that record. No message needs to have been taken
   * for it: this is about what was sent.
   */
  lemma LiveStep(board: Board, op: Op, mail: Mail, id: int)
    requires Sound(board) && LiveIn(board, id)
    ensures LiveIn(Next(board, op, mail), id) <==> Keeps(board.reg, op, id)
  {
    var change, next := Apply(board.reg, op), Next(board, op, mail);
    OpCovers(board.reg, op, id);
    ApplyKeepsOk(board.reg, op);
    MailoutEffect(board.desk, change.reg, change.mailings, mail, id);
    if id in change.reg.certs {
      assert CertOk(change.reg, id);
      assert id in board.reg.certs ==> CertOk(board.reg, id);
      if !Reached(change.reg, id) || !Mentions(change.mailings, id) {
        if id in board.reg.certs {
          StillLive(board.desk, next.desk, board.reg, change.reg, id);
        } else {
          assert Sent(next.desk, id) == [];
        }
      }
    }
  }

  /** With no new message a calendar stays true exactly when what it shows has not moved. */
  lemma StillLive(desk: Desk, desk': Desk, reg: Registry, reg': Registry, id: int)
    requires id in reg.certs && id in reg'.certs && reg.certs[id].id == id == reg'.certs[id].id
    requires Same(desk, desk', Uid(id, Expiry)) && LiveFor(desk, reg.certs[id], reg.settings)
    ensures LiveFor(desk', reg'.certs[id], reg'.settings) <==> Unmoved(reg, reg', id)
  {
  }

  lemma SoundStep(board: Board, op: Op, mail: Mail)
    requires Sound(board)
    ensures Sound(Next(board, op, mail))
  {
    var change, next := Apply(board.reg, op), Next(board, op, mail);
    ApplyKeepsOk(board.reg, op);
    forall id | id !in change.reg.certs ensures Sent(next.desk, id) == [] {
      OpCovers(board.reg, op, id);
      MailoutEffect(board.desk, change.reg, change.mailings, mail, id);
      assert id !in board.reg.certs;
    }
  }

  lemma {:induction false} SoundHistory(board: Board, ops: seq<Op>, mail: Mail)
    requires Sound(board)
    ensures Sound(History(board, ops, mail))
  {
    if ops != [] {
      SoundHistory(board, ops[..|ops| - 1], mail);
      SoundStep(History(board, ops[..|ops| - 1], mail), ops[|ops| - 1], mail);
    }
  }

  lemma HistoryNext(board: Board, ops: seq<Op>, mail: Mail, k: nat)
    requires k < |ops|
    ensures History(board, ops[..k + 1], mail) == Next(History(board, ops[..k], mail), ops[k], mail)
  {
    assert ops[..k + 1][..k] == ops[..k];
  }

  ghost predicate AlwaysKeeps(board: Board, ops: seq<Op>, mail: Mail, id: int) {
    forall k :: 0 <= k < |ops| ==> Keeps(History(board, ops[..k], mail).reg, ops[k], id)
  }

  lemma StepAt(board: Board, ops: seq<Op>, mail: Mail, id: int, k: nat)
    requires Sound(board) && k < |ops| && LiveIn(History(board, ops[..k], mail), id)
    ensures LiveIn(History(board, ops[..k + 1], mail), id) <==> Keeps(History(board, ops[..k], mail).reg, ops[k], id)
  {
    SoundHistory(board, ops[..k], mail);
    HistoryNext(board, ops, mail, k);
    LiveStep(History(board, ops[..k], mail), ops[k], mail, id);
  }

  /**
   * Over a whole history of lifecycle and settings operations: a record's
   * calendar is true at every moment if and only if every call kept it.
   */
  lemma LiveHistory(board: Board, ops: seq<Op>, mail: Mail, id: int)
    requires Sound(board) && LiveIn(board, id)
    ensures (forall k :: 0 <= k <= |ops| ==> LiveIn(History(board, ops[..k], mail), id))
            <==> AlwaysKeeps(board, ops, mail, id)
  {
    if AlwaysKeeps(board, ops, mail, id) {
      forall k | 0 <= k <= |ops| ensures LiveIn(History(board, ops[..k], mail), id) {
        LiveUpTo(board, ops, mail, id, k);
      }
    } else {
      var k :| 0 <= k < |ops| && !Keeps(History(board, ops[..k], mail).reg, ops[k], id);
      if LiveIn(History(board, ops[..k], mail), id) { StepAt(board, ops, mail, id, k); }
    }
  }

  lemma {:induction false} LiveUpTo(board: Board, ops: seq<Op>, mail: Mail, id: int, k: nat)
    requires Sound(board) && LiveIn(board, id) && AlwaysKeeps(board, ops, mail, id) && k <= |ops|
    ensures LiveIn(History(board, ops[..k], mail), id)
  {
    if k > 0 {
      LiveUpTo(board, ops, mail, id, k - 1);
      StepAt(board, ops, mail, id, k - 1);
    }
  }

  // ---------------------------------------------------------------- the two ways it goes wrong

  function EmptyBoard(settings: Settings): Board { Board(Registry(map[], 1, settings), Desk(map[], [])) }

  /** An owner's address is somebody to tell. */
  lemma OwnerHears(cert: Cert, settings: Settings)
    requires cert.ownerEmail == "a" && settings.emailConfigured
    ensures CanMail(cert, settings)
  {
    assert Strip("a") == "a";
    assert "a"[1..] == "";
    assert Lower("a") == "a";
    Audience(cert, settings, "a");
  }

  /** Registered, archived, and sent again: the event of an archived record is published. */
  lemma StrayCall(settings: Settings, mail: Mail)
    requires settings.emailConfigured
    ensures var ops := [CreateManual(100, "a"), Archive(1, 0), Resend(1)];
            && 1 in History(EmptyBoard(settings), ops[..2], mail).reg.certs
            && LiveIn(History(EmptyBoard(settings), ops[..2], mail), 1)
            && !LiveIn(History(EmptyBoard(settings), ops, mail), 1)
  {
    var board, ops := EmptyBoard(settings), [CreateManual(100, "a"), Archive(1, 0), Resend(1)];
    var cert := NewCert(1, 100, "a", None);
    var r1, r2 := Only(cert, settings), Only(cert.(status := Archived, archivedAt := Some(0)), settings);
    OwnerHears(cert, settings);
    OwnerHears(r2.certs[1], settings);
    assert Apply(board.reg, ops[0]).reg == r1 && Apply(r1, ops[1]).reg == r2 && Apply(r2, ops[2]).reg == r2;
    ThreeSteps(board, ops, mail, 1, r1, r2);
  }

  /**
   * Registered, then left with nobody to tell, then archived: no CANCEL is sent
   * and the event stays published.
   */
  lemma SilentArchive(settings: Settings, mail: Mail)
    requires settings.emailConfigured
    ensures var ops := [CreateManual(100, "a"), Update(1, "", [], true, false, None, None, None), Archive(1, 0)];
            && 1 in History(EmptyBoard(settings), ops[..2], mail).reg.certs
            && LiveIn(History(EmptyBoard(settings), ops[..2], mail), 1)
            && !LiveIn(History(EmptyBoard(settings), ops, mail), 1)
  {
    var quiet := Update(1, "", [], true, false, None, None, None);
    var board, ops := EmptyBoard(settings), [CreateManual(100, "a"), quiet, Archive(1, 0)];
    var cert := NewCert(1, 100, "a", None);
    var r1, r2 := Only(cert, settings), Only(cert.(ownerEmail := "", replaceDefaults := true), settings);
    OwnerHears(cert, settings);
    assert Apply(board.reg, ops[0]).reg == r1;
    assert Apply(r1, quiet).reg == r2;
    assert Shown(r2.certs[1], settings) == Shown(cert, settings);
    NobodyHears(r2.certs[1], settings);
    NobodyHears(r2.certs[1].(status := Archived, archivedAt := Some(0)), settings);
    assert !Keeps(r2, ops[2], 1);
    ThreeSteps(board, ops, mail, 1, r1, r2);
  }

  /** The board with one record. */
  function Only(cert: Cert, settings: Settings): Registry { Registry(map[1 := cert], 2, settings) }

  lemma NobodyHears(cert: Cert, settings: Settings)
    requires cert.ownerEmail == "" && cert.extraRecipients == [] && cert.replaceDefaults
    ensures !CanMail(cert, settings)
  {
  }

  lemma ThreeSteps(board: Board, ops: seq<Op>, mail: Mail, id: int, r1: Registry, r2: Registry)
    requires Sound(board) && LiveIn(board, id) && |ops| == 3
    requires r1 == Apply(board.reg, ops[0]).reg && r2 == Apply(r1, ops[1]).reg
    requires Keeps(board.reg, ops[0], id) && Keeps(r1, ops[1], id)
    ensures History(board, ops[..2], mail).reg == r2 && LiveIn(History(board, ops[..2], mail), id)
    ensures LiveIn(History(board, ops, mail), id) <==> Keeps(r2, ops[2], id)
  {
    NoSteps(board, ops, mail);
    KeptStep(board, ops, mail, id, 0, board.reg, r1);
    KeptStep(board, ops, mail, id, 1, r1, r2);
    LastStep(board, ops, mail, id, 2, r2);
  }

  lemma NoSteps(board: Board, ops: seq<Op>, mail: Mail)
    ensures History(board, ops[..0], mail) == board
  {
  }

  lemma LastStep(board: Board, ops: seq<Op>, mail: Mail, id: int, k: nat, before: Registry)
    requires Sound(board) && |ops| == k + 1 && LiveIn(History(board, ops[..k], mail), id)
    requires History(board, ops[..k], mail).reg == before
    ensures LiveIn(History(board, ops, mail), id) <==> Keeps(before, ops[k], id)
  {
    assert ops[..k + 1] == ops;
    StepAt(board, ops, mail, id, k);
  }

  lemma KeptStep(board: Board, ops: seq<Op>, mail: Mail, id: int, k: nat, before: Registry, after: Registry)
    requires Sound(board) && k < |ops| && LiveIn(History(board, ops[..k], mail), id)
    requires History(board, ops[..k], mail).reg == before && after == Apply(before, ops[k]).reg
    requires Keeps(before, ops[k], id)
    ensures History(board, ops[..k + 1], mail).reg == after && LiveIn(History(board, ops[..k + 1], mail), id)
  {
    HistoryNext(board, ops, mail, k);
    StepAt(board, ops, mail, id, k);
  }

  /**
   * End to end: for a record whose calendar is true, if the row of its event
   * says the last message was taken and that message reached a client, the
   * client shows the certificate's own expiry date with its effective
   * reminders, whatever else arrived and in whatever order.
   */
  lemma ClientShowsExpiry(start: map<Uid, Invite>, board: Board, held: map<Uid, Event>, arrivals: seq<Event>, id: int,
                          lead: int, days: seq<int>)
    requires RegistryOk(board.reg) && LiveIn(board, id) && Numbered(start, board.desk)
    requires Older(start, held) && Genuine(board.desk, arrivals)
    requires id in board.reg.certs && Uid(id, Expiry) in board.desk.invites && board.desk.invites[Uid(id, Expiry)].sent
    requires var sent := Sent(board.desk, id); sent != [] && sent[|sent| - 1].event in arrivals
    requires LeadInForce(board.reg.certs[id], board.reg.settings, lead)
    requires AlarmsInForce(board.reg.certs[id], board.reg.settings, days)
    ensures var shown := ReceiveAll(held, arrivals);
            var cert := board.reg.certs[id];
            && Uid(id, Expiry) in shown
            && var event := shown[Uid(id, Expiry)];
               if cert.status == Active
               then event.verb == Publish && event.date == cert.notAfter
                    && (forall d :: d in event.alarms <==> d > 0 && (d == lead || d in days))
               else event.verb == Cancel
  {
    ClientMatchesRow(start, board.desk, held, arrivals, Uid(id, Expiry));
    var cert := board.reg.certs[id];
    assert CertOk(board.reg, id);
    assert LiveFor(board.desk, cert, board.reg.settings);
    AlarmsAre(cert.EffectiveRenewLead(board.reg.settings), cert.EffectiveAlarms(board.reg.settings));
  }

  // ---------------------------------------------------------------- the second event of older installations

  /** The record's separate renewal event, if it ever had one, is marked withdrawn. */
  predicate RenewalGone(desk: Desk, id: int) {
    var renewal := Uid(id, Calendar.Renew);
    renewal in desk.invites ==> desk.invites[renewal].cancelled
  }

  lemma MailingRetires(desk: Desk, reg: Registry, mailing: Mailing, mail: Mail, id: int)
    requires RegistryOk(reg)
    ensures RenewalGone(desk, id) ==> RenewalGone(MailOne(desk, reg, mailing, mail), id)
    ensures mailing.id == id && id in reg.certs && CanMail(reg.certs[id], reg.settings) ==>
              RenewalGone(MailOne(desk, reg, mailing, mail), id)
  {
    if mailing.id in reg.certs && CanMail(reg.certs[mailing.id], reg.settings) {
      var cert := reg.certs[mailing.id];
      assert CertOk(reg, mailing.id);
      if mailing.Announce? { PublishEffect(desk, cert, reg.settings, mail); }
      else { CancelEffect(desk, cert, reg.settings, mail); }
      assert id != cert.id ==> Same(desk, MailOne(desk, reg, mailing, mail), Uid(id, Calendar.Renew));
    }
  }

  lemma {:induction false} MailoutRetires(desk: Desk, reg: Registry, mailings: seq<Mailing>, mail: Mail, id: int)
    requires RegistryOk(reg)
    ensures RenewalGone(desk, id) ==> RenewalGone(Mailout(desk, reg, mailings, mail), id)
    ensures Mentions(mailings, id) && id in reg.certs && CanMail(reg.certs[id], reg.settings) ==>
              RenewalGone(Mailout(desk, reg, mailings, mail), id)
    decreases |mailings|
  {
    if mailings != [] {
      assert forall m :: m in mailings <==> m == mailings[0] || m in mailings[1..];
      MailingRetires(desk, reg, mailings[0], mail, id);
      MailoutRetires(MailOne(desk, reg, mailings[0], mail), reg, mailings[1..], mail, id);
    }
  }

  /** This operation sends something about the record. */
  predicate Mails(reg: Registry, op: Op, id: int) {
    var change := Apply(reg, op);
    Mentions(change.mailings, id) && id in change.reg.certs && CanMail(change.reg.certs[id], change.reg.settings)
  }

  lemma StepRetires(board: Board, op: Op, mail: Mail, id: int)
    requires RegistryOk(board.reg)
    ensures RenewalGone(board.desk, id) || Mails(board.reg, op, id) ==> RenewalGone(Next(board, op, mail).desk, id)
  {
    ApplyKeepsOk(board.reg, op);
    MailoutRetires(board.desk, Apply(board.reg, op).reg, Apply(board.reg, op).mailings, mail, id);
  }

  lemma StepKeepsGone(board: Board, op: Op, mail: Mail, id: int)
    requires RegistryOk(board.reg) && RenewalGone(board.desk, id)
    ensures RenewalGone(Next(board, op, mail).desk, id)
  {
    StepRetires(board, op, mail, id);
  }

  lemma GoneNext(board: Board, ops: seq<Op>, mail: Mail, id: int, k: nat)
    requires RegistryOk(board.reg) && k < |ops| && RenewalGone(History(board, ops[..k], mail).desk, id)
    ensures RenewalGone(History(board, ops[..k + 1], mail).desk, id)
  {
    HistoryOk(board, ops[..k], mail);
    HistoryNext(board, ops, mail, k);
    StepKeepsGone(History(board, ops[..k], mail), ops[k], mail, id);
  }

  lemma {:induction false} GoneStays(board: Board, ops: seq<Op>, mail: Mail, id: int, k: nat)
    requires RegistryOk(board.reg) && k <= |ops| && RenewalGone(History(board, ops[..k], mail).desk, id)
    ensures RenewalGone(History(board, ops, mail).desk, id)
    decreases |ops| - k
  {
    if k < |ops| {
      GoneNext(board, ops, mail, id, k);
      GoneStays(board, ops, mail, id, k + 1);
    } else {
      assert ops[..k] == ops;
    }
  }

  /**
   * The first operation that sends anything about a record leaves the separate
   * renewal event of an older installation marked withdrawn, and nothing ever
   * undoes that.
   */
  lemma RenewalStaysGone(board: Board, ops: seq<Op>, mail: Mail, id: int, k: nat)
    requires RegistryOk(board.reg) && k < |ops| && Mails(History(board, ops[..k], mail).reg, ops[k], id)
    ensures RenewalGone(History(board, ops, mail).desk, id)
  {
    HistoryOk(board, ops[..k], mail);
    HistoryNext(board, ops, mail, k);
    StepRetires(History(board, ops[..k], mail), ops[k], mail, id);
    GoneStays(board, ops, mail, id, k + 1);
  }

  lemma {:induction false} HistoryOk(board: Board, ops: seq<Op>, mail: Mail)
    requires RegistryOk(board.reg)
    ensures RegistryOk(History(board, ops, mail).reg)
  {
    if ops != [] {
      HistoryOk(board, ops[..|ops| - 1], mail);
      ApplyKeepsOk(History(board, ops[..|ops| - 1], mail).reg, ops[|ops| - 1]);
    }
  }

  // ---------------------------------------------------------------- whether that withdrawal is ever repeated

  /** The record has a separate renewal event and it is marked withdrawn. */
  predicate MarkedWithdrawn(desk: Desk, id: int) {
    var renewal := Uid(id, Calendar.Renew);
    renewal in desk.invites && desk.invites[renewal].cancelled
  }

  function RenewalSent(desk: Desk, id: int): seq<Envelope> { Attempts(desk.outbox, Uid(id, Calendar.Renew)) }

  /** So many further CANCELs, and nothing else, were attempted for the renewal event. */
  ghost predicate MoreCancels(desk: Desk, desk': Desk, id: int, n: nat) {
    var before, after := RenewalSent(desk, id), RenewalSent(desk', id);
    && |after| == |before| + n && before <= after
    && forall k :: |before| <= k < |after| ==> after[k].event.verb == Cancel
  }

  /** The call takes this record off the board while it can be mailed: archiving it or replacing it. */
  predicate Withdraws(reg: Registry, op: Op, id: int) {
    && id in reg.certs && CanMail(reg.certs[id], reg.settings)
    && match op
       case Archive(k, _) => k == id && reg.certs[id].status == Active
       case Renew(k, _, _) => k == id && Replaces(reg, op)
       case _ => false
  }

  function Withdrawals(board: Board, ops: seq<Op>, mail: Mail, id: int): nat {
    if ops == [] then 0
    else
      var before, op := ops[..|ops| - 1], ops[|ops| - 1];
      Withdrawals(board, before, mail, id) + (if Withdraws(History(board, before, mail).reg, op, id) then 1 else 0)
  }

  lemma MailingCancels(desk: Desk, reg: Registry, mailing: Mailing, mail: Mail, id: int)
    requires RegistryOk(reg) && MarkedWithdrawn(desk, id)
    ensures var desk' := MailOne(desk, reg, mailing, mail);
            MarkedWithdrawn(desk', id)
            && MoreCancels(desk, desk', id, if mailing == Withdraw(id) && Reached(reg, id) then 1 else 0)
  {
    if mailing.id in reg.certs {
      var cert := reg.certs[mailing.id];
      assert CertOk(reg, mailing.id);
      if !CanMail(cert, reg.settings) {
      } else if mailing.Withdraw? {
        CancelEffect(desk, cert, reg.settings, mail);
      } else {
        PublishEffect(desk, cert, reg.settings, mail);
        if mailing.id == id { PublishLeaves(desk, cert, reg.settings, mail); }
      }
    }
  }

  lemma {:induction false} MailoutCancels(desk: Desk, reg: Registry, mailings: seq<Mailing>, mail: Mail, id: int)
    requires RegistryOk(reg) && DistinctMailings(mailings) && MarkedWithdrawn(desk, id)
    ensures var desk' := Mailout(desk, reg, mailings, mail);
            MarkedWithdrawn(desk', id)
            && MoreCancels(desk, desk', id, if Withdraw(id) in mailings && Reached(reg, id) then 1 else 0)
    decreases |mailings|
  {
    if mailings != [] {
      assert forall m :: m in mailings <==> m == mailings[0] || m in mailings[1..];
      NotAgain(mailings);
      MailingCancels(desk, reg, mailings[0], mail, id);
      MailoutCancels(MailOne(desk, reg, mailings[0], mail), reg, mailings[1..], mail, id);
    }
  }

  lemma WithdrawsMeans(reg: Registry, op: Op, id: int)
    requires RegistryOk(reg)
    ensures var change := Apply(reg, op);
            DistinctMailings(change.mailings)
            && (Withdraw(id) in change.mailings && Reached(change.reg, id) <==> Withdraws(reg, op, id))
  {
    OpCovers(reg, op, id);
    assert id in reg.certs ==> CertOk(reg, id);
    var change := Apply(reg, op);
    if op.Renew? && change.mailings != [] {
      assert CertOk(reg, op.id);
      assert change.mailings[0] == Withdraw(op.id) && change.mailings[1].Announce?;
    } else if op.Archive? && change.mailings != [] {
      assert change.mailings[0] == Withdraw(op.id);
    }
  }

  lemma CancelsStep(board: Board, op: Op, mail: Mail, id: int)
    requires RegistryOk(board.reg) && MarkedWithdrawn(board.desk, id)
    ensures var next := Next(board, op, mail);
            MarkedWithdrawn(next.desk, id)
            && MoreCancels(board.desk, next.desk, id, if Withdraws(board.reg, op, id) then 1 else 0)
  {
    ApplyKeepsOk(board.reg, op);
    WithdrawsMeans(board.reg, op, id);
    MailoutCancels(board.desk, Apply(board.reg, op).reg, Apply(board.reg, op).mailings, mail, id);
  }

  lemma CancelsAdd(a: Desk, b: Desk, c: Desk, id: int, m: nat, n: nat)
    requires MoreCancels(a, b, id, m) && MoreCancels(b, c, id, n)
    ensures MoreCancels(a, c, id, m + n)
  {
  }

  /**
   * Once the separate renewal event is marked withdrawn, whatever follows, it
   * gets exactly one further CANCEL for each call that takes the record off the
   * board while it can be mailed, and no other message. So a withdrawal that
   * was refused is tried again if and only if such a call comes.
   */
  lemma {:induction false} WithdrawalRepeats(board: Board, ops: seq<Op>, mail: Mail, id: int)
    requires RegistryOk(board.reg) && MarkedWithdrawn(board.desk, id)
    ensures MarkedWithdrawn(History(board, ops, mail).desk, id)
    ensures MoreCancels(board.desk, History(board, ops, mail).desk, id, Withdrawals(board, ops, mail, id))
  {
    if ops != [] {
      var n := |ops| - 1;
      var before := History(board, ops[..n], mail);
      WithdrawalRepeats(board, ops[..n], mail, id);
      HistoryOk(board, ops[..n], mail);
      CancelsStep(before, ops[n], mail, id);
      CancelsAdd(board.desk, before.desk, Next(before, ops[n], mail).desk, id, Withdrawals(board, ops[..n], mail, id),
                 if Withdraws(before.reg, ops[n], id) then 1 else 0);
    }
  }

  /** A board with one record, whose separate renewal event an older installation published. */
  function OldBoard(settings: Settings): Board {
    Board(Only(NewCert(1, 100, "a", None), settings),
          Desk(map[Uid(1, Calendar.Renew) := Invite(0, Publish, 70, ["a"], true, false)], []))
  }

  /**
   * The provider refuses the first message and takes all later ones. Sending the
   * event again leaves the old one marked withdrawn and not taken; sending it
   * once more says nothing about the old one; archiving the record does withdraw it.
   */
  lemma RefusedWithdrawal(settings: Settings)
    requires settings.emailConfigured
    ensures var mail, renewal := (n: nat) => n != 0, Uid(1, Calendar.Renew);
            var first := Next(OldBoard(settings), Resend(1), mail);
            var second := Next(first, Resend(1), mail);
            var third := Next(second, Archive(1, 0), mail);
            && MarkedWithdrawn(first.desk, 1) && !first.desk.invites[renewal].sent
            && RenewalSent(second.desk, 1) == RenewalSent(first.desk, 1)
            && MoreCancels(second.desk, third.desk, 1, 1)
            && renewal in third.desk.invites && third.desk.invites[renewal].sent
  {
    var mail := (n: nat) => n != 0;
    ResendTwice(settings, mail);
    ArchiveTaken(Next(Next(OldBoard(settings), Resend(1), mail), Resend(1), mail), mail);
  }

  lemma ResendTwice(settings: Settings, mail: Mail)
    requires settings.emailConfigured && !mail(0)
    ensures var first := Next(OldBoard(settings), Resend(1), mail);
            var second := Next(first, Resend(1), mail);
            && MarkedWithdrawn(first.desk, 1) && !first.desk.invites[Uid(1, Calendar.Renew)].sent
            && RenewalSent(second.desk, 1) == RenewalSent(first.desk, 1) != []
            && second.reg == OldBoard(settings).reg && MarkedWithdrawn(second.desk, 1) && Reached(second.reg, 1)
  {
    var board, cert := OldBoard(settings), NewCert(1, 100, "a", None);
    OwnerHears(cert, settings);
    ResendIs(board, 1, mail);
    RetiredOnce(board.desk, cert, settings, mail, cert, settings, mail);
    ResendIs(Next(board, Resend(1), mail), 1, mail);
  }

  lemma ResendIs(board: Board, id: int, mail: Mail)
    requires id in board.reg.certs
    ensures Next(board, Resend(id), mail)
            == Board(board.reg, Publishing(board.desk, board.reg.certs[id], board.reg.settings, mail))
  {
    OneMailing(board.desk, board.reg, Announce(id), mail);
  }

  lemma ArchiveTaken(board: Board, mail: Mail)
    requires board.reg == OldBoard(board.reg.settings).reg
    requires Reached(board.reg, 1) && MarkedWithdrawn(board.desk, 1) && RenewalSent(board.desk, 1) != []
    requires forall n: nat :: n >= 1 ==> mail(n)
    ensures var next := Next(board, Archive(1, 0), mail);
            && MoreCancels(board.desk, next.desk, 1, 1)
            && Uid(1, Calendar.Renew) in next.desk.invites && next.desk.invites[Uid(1, Calendar.Renew)].sent
  {
    var reg := Apply(board.reg, Archive(1, 0)).reg;
    OneMailing(board.desk, reg, Withdraw(1), mail);
    CancelTaken(board.desk, reg.certs[1], reg.settings, mail);
    assert RegistryOk(board.reg);
    CancelsStep(board, Archive(1, 0), mail, 1);
  }
}
