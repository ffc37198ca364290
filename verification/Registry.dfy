/**
 * The certificate lifecycle as values: what each operation does to the records,
 * and whose calendar events it then sends or withdraws.
 */
module Registry {
  import opened Common
  import opened Model
  import opened Text

  /** Ids are handed out in order and never reused, since nothing is ever deleted. */
  datatype Registry = Registry(certs: map<int, Cert>, nextId: int, settings: Settings)

  /** A SHA-256 digest in hex, never empty. */
  type Fingerprint = s: string | |s| > 0 witness "0"

  datatype Facts = Facts(fingerprint: Fingerprint, notAfter: int)

  datatype Op =
    | Create(facts: Facts, owner: string)
    | CreateManual(notAfter: int, owner: string)
    | Attach(id: int, facts: Facts, confirm: bool)
    | Renew(id: int, facts: Facts, now: int)
    | Update(id: int, owner: string, extra: seq<string>, replace: bool, muted: bool, reminderDays: Option<seq<int>>,
             renewLead: Option<int>, alarmDays: Option<seq<int>>)
    | Archive(id: int, now: int)
    | Restore(id: int)
    | Resend(id: int)
    | Save(settings: Settings)

  datatype Result = Done | Linked | NotFound | Conflict | Mismatch

  datatype Mailing = Announce(id: int) | Withdraw(id: int)

  datatype Change = Change(reg: Registry, mailings: seq<Mailing>, result: Result)

  // ---------------------------------------------------------------- queries

  /** The record with this fingerprint, looking from `id` upwards. */
  function FindFrom(certs: map<int, Cert>, fingerprint: string, id: int, limit: int): (r: Option<int>)
    ensures r.Some? ==> id <= r.value < limit && r.value in certs && certs[r.value].fingerprint == Some(fingerprint)
    ensures r.None? ==> forall k :: id <= k < limit && k in certs ==> certs[k].fingerprint != Some(fingerprint)
    decreases limit - id
  {
    if id >= limit then None
    else if id in certs && certs[id].fingerprint == Some(fingerprint) then Some(id)
    else FindFrom(certs, fingerprint, id + 1, limit)
  }

  function FindByFingerprint(reg: Registry, fingerprint: string): Option<int> {
    FindFrom(reg.certs, fingerprint, 1, reg.nextId)
  }

  /** Active records with ids from 1 up to `limit`, soonest expiry first. */
  function ActiveUpTo(certs: map<int, Cert>, limit: int): (r: seq<int>)
    ensures forall id :: id in r <==> 1 <= id < limit && id in certs && certs[id].status == Active
    ensures ByExpiry(certs, r)
    decreases limit
  {
    if limit <= 1 then []
    else
      var rest := ActiveUpTo(certs, limit - 1);
      if limit - 1 in certs && certs[limit - 1].status == Active then InsertByExpiry(certs, limit - 1, rest) else rest
  }

  /** Known records, each once, soonest expiry first. */
  ghost predicate ByExpiry(certs: map<int, Cert>, ids: seq<int>) {
    && (forall i :: 0 <= i < |ids| ==> ids[i] in certs)
    && (forall i, j :: 0 <= i < j < |ids| ==> ids[i] != ids[j] && certs[ids[i]].notAfter <= certs[ids[j]].notAfter)
  }

  function InsertByExpiry(certs: map<int, Cert>, id: int, ids: seq<int>): (r: seq<int>)
    requires ByExpiry(certs, ids) && id in certs && id !in ids
    ensures ByExpiry(certs, r) && forall k :: k in r <==> k == id || k in ids
  {
    if ids == [] || certs[id].notAfter < certs[ids[0]].notAfter then
      [id] + ids
    else
      var rest := InsertByExpiry(certs, id, ids[1..]);
      assert forall k :: k in ids <==> k == ids[0] || k in ids[1..];
      assert forall i :: 0 <= i < |rest| ==> rest[i] == id || exists j :: 1 <= j < |ids| && ids[j] == rest[i] by {
        FromTail(id, ids, rest);
      }
      [ids[0]] + rest
  }

  lemma FromTail(id: int, ids: seq<int>, rest: seq<int>)
    requires ids != [] && forall k :: k in rest ==> k == id || k in ids[1..]
    ensures forall i :: 0 <= i < |rest| ==> rest[i] == id || exists j :: 1 <= j < |ids| && ids[j] == rest[i]
  {
    forall i | 0 <= i < |rest| && rest[i] != id ensures exists j :: 1 <= j < |ids| && ids[j] == rest[i] {
      assert rest[i] in ids[1..];
      var j :| 0 <= j < |ids[1..]| && ids[1..][j] == rest[i];
      assert ids[j + 1] == rest[i];
    }
  }

  function ActiveIds(reg: Registry): seq<int> { ActiveUpTo(reg.certs, reg.nextId) }

  function Announcements(ids: seq<int>): (r: seq<Mailing>)
    ensures |r| == |ids| && forall i :: 0 <= i < |ids| ==> r[i] == Announce(ids[i])
  {
    if ids == [] then [] else [Announce(ids[0])] + Announcements(ids[1..])
  }

  // ---------------------------------------------------------------- operations

  function NewCert(id: int, notAfter: int, owner: string, fingerprint: Option<string>): Cert {
    Cert(id, notAfter, if fingerprint.Some? then Upload else Manual, fingerprint.Some?, fingerprint,
         Active, None, None, false, CleanText(owner), [], false, None, None, None)
  }

  /** `create_from_facts`: a fingerprint that is known leads to its record. */
  function CreateFromFacts(reg: Registry, facts: Facts, owner: string): (r: (Registry, int, bool))
    ensures r.1 in r.0.certs
  {
    var existing := FindByFingerprint(reg, facts.fingerprint);
    if existing.Some? then (reg, existing.value, false)
    else (reg.(certs := reg.certs[reg.nextId := NewCert(reg.nextId, facts.notAfter, owner, Some(facts.fingerprint))],
               nextId := reg.nextId + 1), reg.nextId, true)
  }

  function AttachFacts(cert: Cert, facts: Facts): Cert {
    cert.(source := Upload, verified := true, notAfter := facts.notAfter, fingerprint := Some(facts.fingerprint))
  }

  function SupersededBy(cert: Cert, successor: int, now: int): Cert {
    cert.(supersededBy := Some(successor), status := Archived, archivedAt := Some(now))
  }

  function Edited(cert: Cert, op: Op): Cert
    requires op.Update?
  {
    cert.(ownerEmail := op.owner, extraRecipients := Filter(op.extra, x => x != ""), replaceDefaults := op.replace,
    muted := op.muted, reminderDays := op.reminderDays, renewLeadDays := op.renewLead, alarmDays := op.alarmDays)
  }

  /** Everything about a record whose change is worth an update of the event. */
  datatype Timing = Timing(renewLead: int, alarms: seq<int>, replace: bool, extra: seq<string>, owner: string)

  function TimingOf(cert: Cert, settings: Settings): Timing {
    Timing(cert.EffectiveRenewLead(settings), cert.EffectiveAlarms(settings), cert.replaceDefaults,
        cert.extraRecipients,
           cert.ownerEmail)
  }

  /** Whether attaching this certificate to this record would be accepted. */
  function AttachResult(reg: Registry, id: int, facts: Facts, confirm: bool): Result {
    if id !in reg.certs then NotFound
    else
      var duplicate := FindByFingerprint(reg, facts.fingerprint);
      if duplicate.Some? && duplicate.value != id then Conflict
      else if reg.certs[id].notAfter != facts.notAfter && !confirm then Mismatch
      else Done
  }

  function Apply(reg: Registry, op: Op): Change {
    match op
    case Create(facts, owner) =>
      var (reg', id, created) := CreateFromFacts(reg, facts, owner);
      Change(reg', if created then [Announce(id)] else [], if created then Done else Linked)
    case CreateManual(notAfter, owner) =>
      Change(reg.(certs := reg.certs[reg.nextId := NewCert(reg.nextId, notAfter, owner, None)],
          nextId := reg.nextId + 1),
             [Announce(reg.nextId)], Done)
    case Attach(id, facts, confirm) =>
      var result := AttachResult(reg, id, facts, confirm);
      if result != Done then Change(reg, [], result)
      else Change(reg.(certs := reg.certs[id := AttachFacts(reg.certs[id], facts)]), [Announce(id)], Done)
    case Renew(id, facts, now) =>
      if id !in reg.certs then Change(reg, [], NotFound)
      else if reg.certs[id].fingerprint == Some(facts.fingerprint) then Change(reg, [], Conflict)
      else
        var prior := reg.certs[id];
        var (reg1, successor, created) := CreateFromFacts(reg, facts, prior.ownerEmail);
        var heir := reg1.certs[successor].(extraRecipients := prior.extraRecipients);
        Change(reg1.(certs := reg1.certs[successor := heir][id := SupersededBy(prior, successor, now)]),
               [Withdraw(id), Announce(successor)], Done)
    case Update(id, _, _, _, _, _, _, _) =>
      if id !in reg.certs then Change(reg, [], NotFound)
      else
        var prior, cert := reg.certs[id], Edited(reg.certs[id], op);
        Change(reg.(certs := reg.certs[id := cert]),
               if TimingOf(prior, reg.settings) != TimingOf(cert, reg.settings)
                   && cert.status != Archived then [Announce(id)] else [],
               Done)
    case Archive(id, now) =>
      if id !in reg.certs then Change(reg, [], NotFound)
      else if reg.certs[id].status == Archived then Change(reg, [], Conflict)
      else Change(reg.(certs := reg.certs[id := reg.certs[id].(status := Archived, archivedAt := Some(now))]),
          [Withdraw(id)], Done)
    case Restore(id) =>
      if id !in reg.certs then Change(reg, [], NotFound)
      else Change(reg.(certs := reg.certs[id := reg.certs[id].(status := Active, archivedAt := None)]),
          [Announce(id)], Done)
    case Resend(id) =>
      if id !in reg.certs then Change(reg, [], NotFound) else Change(reg, [Announce(id)], Done)
    case Save(settings) =>
      var reg' := reg.(settings := settings);
      Change(reg',
             if (reg.settings.renewLeadDays, reg.settings.alarmDays) != (settings.renewLeadDays, settings.alarmDays)
             then Announcements(ActiveIds(reg')) else [],
             Done)
  }

  // ---------------------------------------------------------------- invariants over every history

  ghost predicate CertOk(reg: Registry, id: int)
    requires id in reg.certs
  {
    var cert := reg.certs[id];
    && 1 <= id < reg.nextId && cert.id == id
    && (cert.verified <==> cert.source == Upload) && (cert.verified <==> cert.fingerprint.Some?)
    && (cert.status == Archived <==> cert.archivedAt.Some?)
    && (cert.supersededBy.Some? ==> cert.supersededBy.value in reg.certs && cert.supersededBy.value != id)
  }

  ghost predicate RegistryOk(reg: Registry) {
    && 1 <= reg.nextId
    && (forall id :: id in reg.certs ==> CertOk(reg, id))
    && (forall a, b :: a in reg.certs && b in reg.certs && a != b && reg.certs[a].fingerprint.Some? ==>
          reg.certs[a].fingerprint != reg.certs[b].fingerprint)
  }

  function RunOps(reg: Registry, ops: seq<Op>): Registry {
    if ops == [] then reg else Apply(RunOps(reg, ops[..|ops| - 1]), ops[|ops| - 1]).reg
  }

  /** A record's own fields are consistent. */
  predicate Shaped(cert: Cert) {
    && (cert.verified <==> cert.source == Upload) && (cert.verified <==> cert.fingerprint.Some?)
    && (cert.status == Archived <==> cert.archivedAt.Some?)
  }

  /** Nobody else has this fingerprint. */
  ghost predicate Unclaimed(reg: Registry, id: int, fingerprint: Option<string>) {
    fingerprint.Some? ==> forall k :: k in reg.certs && k != id ==> reg.certs[k].fingerprint != fingerprint
  }

  lemma PutOk(reg: Registry, id: int, cert: Cert)
    requires RegistryOk(reg) && id in reg.certs && cert.id == id && Shaped(cert) && Unclaimed(reg, id, cert.fingerprint)
    requires cert.supersededBy.Some? ==> cert.supersededBy.value in reg.certs && cert.supersededBy.value != id
    ensures RegistryOk(reg.(certs := reg.certs[id := cert]))
  {
    var reg' := reg.(certs := reg.certs[id := cert]);
    assert CertOk(reg, id);
    forall k | k in reg'.certs ensures CertOk(reg', k) { assert CertOk(reg, k); }
  }

  lemma AddOk(reg: Registry, notAfter: int, owner: string, fingerprint: Option<string>)
    requires RegistryOk(reg) && Unclaimed(reg, reg.nextId, fingerprint)
    ensures RegistryOk(reg.(certs := reg.certs[reg.nextId := NewCert(reg.nextId, notAfter, owner, fingerprint)],
                            nextId := reg.nextId + 1))
  {
    var reg' := reg.(certs := reg.certs[reg.nextId := NewCert(reg.nextId, notAfter, owner, fingerprint)],
        nextId := reg.nextId + 1);
    assert forall k :: k in reg.certs ==> CertOk(reg, k);
    forall k | k in reg'.certs ensures CertOk(reg', k) {
      if k in reg.certs { assert CertOk(reg, k); }
    }
  }

  lemma Settled(reg: Registry, id: int)
    requires RegistryOk(reg) && id in reg.certs
    ensures CertOk(reg, id) && Shaped(reg.certs[id]) && Unclaimed(reg, id, reg.certs[id].fingerprint)
  {
    assert CertOk(reg, id);
  }

  lemma FoundOnly(reg: Registry, fingerprint: string, id: int)
    requires RegistryOk(reg)
    requires FindByFingerprint(reg, fingerprint).None? || FindByFingerprint(reg, fingerprint) == Some(id)
    ensures Unclaimed(reg, id, Some(fingerprint))
  {
    assert forall k :: k in reg.certs ==> CertOk(reg, k);
    assert FindByFingerprint(reg, fingerprint) == Some(id) ==> id in reg.certs;
  }

  lemma RenewOk(reg: Registry, op: Op)
    requires RegistryOk(reg) && op.Renew?
    ensures RegistryOk(Apply(reg, op).reg)
  {
    if op.id in reg.certs && reg.certs[op.id].fingerprint != Some(op.facts.fingerprint) {
      var prior := reg.certs[op.id];
      var (reg1, successor, created) := CreateFromFacts(reg, op.facts, prior.ownerEmail);
      assert CertOk(reg, op.id);
      if created {
        FoundOnly(reg, op.facts.fingerprint, reg.nextId);
        AddOk(reg, op.facts.notAfter, prior.ownerEmail, Some(op.facts.fingerprint));
      }
      assert successor != op.id && reg1.certs[op.id] == prior;
      var heir := reg1.certs[successor].(extraRecipients := prior.extraRecipients);
      Settled(reg1, successor);
      PutOk(reg1, successor, heir);
      var reg2 := reg1.(certs := reg1.certs[successor := heir]);
      Settled(reg2, op.id);
      PutOk(reg2, op.id, SupersededBy(prior, successor, op.now));
    }
  }

  lemma ApplyKeepsOk(reg: Registry, op: Op)
    requires RegistryOk(reg)
    ensures RegistryOk(Apply(reg, op).reg)
  {
    match op
    case Create(facts, owner) =>
      if FindByFingerprint(reg, facts.fingerprint).None? {
        FoundOnly(reg, facts.fingerprint, reg.nextId);
        AddOk(reg, facts.notAfter, owner, Some(facts.fingerprint));
      }
    case CreateManual(notAfter, owner) => AddOk(reg, notAfter, owner, None);
    case Attach(id, facts, confirm) =>
      if AttachResult(reg, id, facts, confirm) == Done {
        Settled(reg, id);
        FoundOnly(reg, facts.fingerprint, id);
        PutOk(reg, id, AttachFacts(reg.certs[id], facts));
      }
    case Renew(_, _, _) => RenewOk(reg, op);
    case Save(settings) =>
      var reg' := reg.(settings := settings);
      forall id | id in reg'.certs ensures CertOk(reg', id) { assert CertOk(reg, id); }
    case _ =>
      if op.id in reg.certs && op.id in Apply(reg, op).reg.certs {
        Settled(reg, op.id);
        PutOk(reg, op.id, Apply(reg, op).reg.certs[op.id]);
        assert Apply(reg, op).reg == reg.(certs := reg.certs[op.id := Apply(reg, op).reg.certs[op.id]]);
      }
  }

  /**
   * Over every lifecycle history from an empty board: fingerprints never repeat,
   * a record is verified exactly when it was uploaded and exactly when it has a
   * fingerprint, archived exactly when it has an archive date, and no record
   * replaces itself.
   */
  lemma {:induction false} HistoryKeepsOk(reg: Registry, ops: seq<Op>)
    requires RegistryOk(reg)
    ensures RegistryOk(RunOps(reg, ops))
  {
    if ops != [] {
      HistoryKeepsOk(reg, ops[..|ops| - 1]);
      ApplyKeepsOk(RunOps(reg, ops[..|ops| - 1]), ops[|ops| - 1]);
    }
  }

  // ---------------------------------------------------------------- renewal chains

  /** Following "replaced by" from a record, `steps` times. */
  function Follow(reg: Registry, id: int, steps: nat): Option<int>
    decreases steps
  {
    if id !in reg.certs then None
    else if steps == 0 then Some(id)
    else if reg.certs[id].supersededBy.None? then None
    else Follow(reg, reg.certs[id].supersededBy.value, steps - 1)
  }

  /** No record is its own replacement at any remove. */
  ghost predicate Acyclic(reg: Registry) {
    forall id, steps: nat :: steps >= 1 ==> Follow(reg, id, steps) != Some(id)
  }

  predicate LeadsTo(reg: Registry, from: int, to: int) {
    exists steps: nat :: steps < reg.nextId && Follow(reg, from, steps) == Some(to)
  }

  predicate Replaces(reg: Registry, op: Op) {
    op.Renew? && op.id in reg.certs && reg.certs[op.id].fingerprint != Some(op.facts.fingerprint)
  }

  /** A renewal onto an existing record that the renewed one already leads back from. */
  predicate ClosesLoop(reg: Registry, op: Op) {
    Replaces(reg, op)
    && var heir := FindByFingerprint(reg, op.facts.fingerprint); heir.Some? && LeadsTo(reg, heir.value, op.id)
  }

  lemma {:induction false} FollowSum(reg: Registry, id: int, m: nat, n: nat)
    ensures Follow(reg, id, m + n)
            == if Follow(reg, id, m).Some? then Follow(reg, Follow(reg, id, m).value, n) else None
    decreases m
  {
    if id in reg.certs && m > 0 && reg.certs[id].supersededBy.Some? {
      FollowSum(reg, reg.certs[id].supersededBy.value, m - 1, n);
    }
  }

  lemma {:induction false} FollowStays(reg: Registry, id: int, steps: nat)
    requires RegistryOk(reg)
    ensures Follow(reg, id, steps).Some? ==> 1 <= Follow(reg, id, steps).value < reg.nextId
    decreases steps
  {
    if id in reg.certs {
      assert CertOk(reg, id);
      if steps > 0 && reg.certs[id].supersededBy.Some? {
        FollowStays(reg, reg.certs[id].supersededBy.value, steps - 1);
      }
    }
  }

  /** There are fewer than `nextId` records, so a chain that long would repeat one. */
  lemma AcyclicEnds(reg: Registry, id: int, steps: nat)
    requires RegistryOk(reg) && Acyclic(reg) && steps >= reg.nextId
    ensures Follow(reg, id, steps).None?
  {
    if Follow(reg, id, steps).Some? {
      forall i: nat | i <= steps ensures Follow(reg, id, i).Some? && 1 <= Follow(reg, id, i).value < reg.nextId {
        FollowSum(reg, id, i, steps - i);
        FollowStays(reg, id, i);
      }
      var visited := seq(steps + 1, i requires 0 <= i <= steps => Follow(reg, id, i).value);
      forall i, j | 0 <= i < j < |visited| ensures visited[i] != visited[j] { FollowSum(reg, id, i, j - i); }
      var ids := seq(reg.nextId, i => i);
      forall x | x in Elements(visited) ensures x in Elements(ids) { assert ids[x] == x; }
      DistinctSize(visited);
      ElementsSize(ids);
      SubsetSize(Elements(visited), Elements(ids));
    }
  }

  lemma {:induction false} LoopGoesOn(reg: Registry, id: int, round: nat, steps: nat)
    requires round >= 1 && Follow(reg, id, round) == Some(id)
    ensures Follow(reg, id, steps).Some?
    decreases steps
  {
    if steps < round {
      FollowSum(reg, id, steps, round - steps);
    } else {
      LoopGoesOn(reg, id, round, steps - round);
      FollowSum(reg, id, round, steps - round);
    }
  }

  /** Every chain of replacements ends if and only if none comes back to where it was. */
  lemma ChainsEndIff(reg: Registry)
    requires RegistryOk(reg)
    ensures (forall id :: Follow(reg, id, reg.nextId).None?) <==> Acyclic(reg)
  {
    if Acyclic(reg) {
      forall id ensures Follow(reg, id, reg.nextId).None? { AcyclicEnds(reg, id, reg.nextId); }
    } else {
      var id, steps: nat :| steps >= 1 && Follow(reg, id, steps) == Some(id);
      LoopGoesOn(reg, id, steps, reg.nextId);
    }
  }

  /** The same replacements as before, except perhaps that of `x`; added records have none. */
  ghost predicate SameLinks(reg: Registry, reg': Registry, x: int) {
    && (forall id :: id in reg.certs ==> id in reg'.certs)
    && (forall id :: id in reg.certs && id != x ==> reg'.certs[id].supersededBy == reg.certs[id].supersededBy)
    && (forall id :: id in reg'.certs && id !in reg.certs ==> id != x && reg'.certs[id].supersededBy.None?)
  }

  /** Up to where it first meets `x`, a chain is the one there was. */
  lemma {:induction false} ChainAvoids(reg: Registry, reg': Registry, x: int, id: int, steps: nat)
    returns (met: Option<nat>)
    requires RegistryOk(reg) && SameLinks(reg, reg', x) && id in reg.certs
    ensures met.Some? ==> met.value <= steps && Follow(reg, id, met.value) == Some(x) == Follow(reg', id, met.value)
    ensures met.None? ==> Follow(reg', id, steps) == Follow(reg, id, steps) != Some(x)
    decreases steps
  {
    assert CertOk(reg, id);
    if id == x {
      met := Some(0);
    } else if steps > 0 && reg.certs[id].supersededBy.Some? {
      var rest := ChainAvoids(reg, reg', x, reg.certs[id].supersededBy.value, steps - 1);
      met := if rest.Some? then Some(rest.value + 1) else None;
    } else {
      met := None;
    }
  }

  lemma LoopMeets(reg: Registry, reg': Registry, x: int, id: int, steps: nat)
    requires RegistryOk(reg) && Acyclic(reg) && SameLinks(reg, reg', x)
    requires steps >= 1 && Follow(reg', id, steps) == Some(id)
    ensures Follow(reg', x, steps) == Some(x)
  {
    if id in reg.certs {
      var met := ChainAvoids(reg, reg', x, id, steps);
      if met.Some? { Rotate(reg', id, x, met.value, steps); }
    }
  }

  /** A loop can be entered at any of its records. */
  lemma Rotate(reg: Registry, id: int, x: int, met: nat, steps: nat)
    requires Follow(reg, id, steps) == Some(id) && met <= steps && Follow(reg, id, met) == Some(x)
    ensures Follow(reg, x, steps) == Some(x)
  {
    FollowSum(reg, id, met, steps - met);
    FollowSum(reg, x, steps - met, met);
  }

  /** Linking `x` to `y` closes a loop exactly when `y` already led to `x`. */
  lemma LinkCloses(reg: Registry, reg': Registry, x: int, y: int)
    requires RegistryOk(reg) && Acyclic(reg) && SameLinks(reg, reg', x)
    requires x in reg.certs && y in reg'.certs && y != x && reg'.certs[x].supersededBy == Some(y)
    ensures Acyclic(reg') <==> !(y in reg.certs && LeadsTo(reg, y, x))
  {
    if y in reg.certs && LeadsTo(reg, y, x) {
      var n: nat :| n < reg.nextId && Follow(reg, y, n) == Some(x);
      var met := ChainAvoids(reg, reg', x, y, n);
      assert Follow(reg', x, met.value + 1) == Some(x);
    } else if !Acyclic(reg') {
      var id, steps: nat :| steps >= 1 && Follow(reg', id, steps) == Some(id);
      LoopMeets(reg, reg', x, id, steps);
      assert Follow(reg', y, steps - 1) == Some(x);
      if y in reg.certs {
        var met := ChainAvoids(reg, reg', x, y, steps - 1);
        BoundedSteps(reg, y, met.value);
      }
    }
  }

  lemma BoundedSteps(reg: Registry, id: int, steps: nat)
    requires RegistryOk(reg) && Acyclic(reg) && Follow(reg, id, steps).Some?
    ensures steps < reg.nextId
  {
    if steps >= reg.nextId { AcyclicEnds(reg, id, steps); }
  }

  /** With every link kept (no record has id 0), loops are neither made nor undone. */
  lemma LinksKept(reg: Registry, reg': Registry)
    requires RegistryOk(reg) && Acyclic(reg) && SameLinks(reg, reg', 0) && 0 !in reg.certs
    ensures Acyclic(reg')
  {
    if !Acyclic(reg') {
      var id, steps: nat :| steps >= 1 && Follow(reg', id, steps) == Some(id);
      LinksFollow(reg, reg', id, steps);
    }
  }

  lemma {:induction false} LinksFollow(reg: Registry, reg': Registry, id: int, steps: nat)
    requires RegistryOk(reg) && SameLinks(reg, reg', 0) && 0 !in reg.certs
    ensures id in reg.certs ==> Follow(reg', id, steps) == Follow(reg, id, steps)
    ensures id !in reg.certs && steps > 0 ==> Follow(reg', id, steps).None?
    decreases steps
  {
    if id in reg.certs {
      assert CertOk(reg, id);
      if steps > 0 && reg.certs[id].supersededBy.Some? {
        LinksFollow(reg, reg', reg.certs[id].supersededBy.value, steps - 1);
      }
    }
  }

  /**
   * Operation by operation: while no chain of replacements comes back, the next
   * call makes one come back if and only if it is a renewal onto an existing
   * record that already leads to the one being renewed.
   */
  lemma LoopStep(reg: Registry, op: Op)
    requires RegistryOk(reg) && Acyclic(reg)
    ensures Acyclic(Apply(reg, op).reg) <==> !ClosesLoop(reg, op)
  {
    assert forall id :: id in reg.certs ==> CertOk(reg, id);
    if Replaces(reg, op) {
      var heir := CreateFromFacts(reg, op.facts, reg.certs[op.id].ownerEmail).1;
      LinkCloses(reg, Apply(reg, op).reg, op.id, heir);
    } else {
      LinksKept(reg, Apply(reg, op).reg);
    }
  }

  lemma RunNext(reg: Registry, ops: seq<Op>, k: nat)
    requires k < |ops|
    ensures RunOps(reg, ops[..k + 1]) == Apply(RunOps(reg, ops[..k]), ops[k]).reg
  {
    assert ops[..k + 1][..k] == ops[..k];
  }

  ghost predicate NeverCloses(reg: Registry, ops: seq<Op>) {
    forall k :: 0 <= k < |ops| ==> !ClosesLoop(RunOps(reg, ops[..k]), ops[k])
  }

  /**
   * Over a whole history: at every moment every chain ends, if and only if no
   * call was a renewal that closed a loop.
   */
  lemma LoopHistory(reg: Registry, ops: seq<Op>)
    requires RegistryOk(reg) && Acyclic(reg)
    ensures (forall k :: 0 <= k <= |ops| ==> Acyclic(RunOps(reg, ops[..k]))) <==> NeverCloses(reg, ops)
  {
    if NeverCloses(reg, ops) {
      forall k | 0 <= k <= |ops| ensures Acyclic(RunOps(reg, ops[..k])) { AcyclicUpTo(reg, ops, k); }
    } else {
      var k :| 0 <= k < |ops| && ClosesLoop(RunOps(reg, ops[..k]), ops[k]);
      HistoryKeepsOk(reg, ops[..k]);
      RunNext(reg, ops, k);
      if Acyclic(RunOps(reg, ops[..k])) { LoopStep(RunOps(reg, ops[..k]), ops[k]); }
    }
  }

  lemma {:induction false} AcyclicUpTo(reg: Registry, ops: seq<Op>, k: nat)
    requires RegistryOk(reg) && Acyclic(reg) && NeverCloses(reg, ops) && k <= |ops|
    ensures Acyclic(RunOps(reg, ops[..k]))
  {
    if k > 0 {
      AcyclicUpTo(reg, ops, k - 1);
      HistoryKeepsOk(reg, ops[..k - 1]);
      RunNext(reg, ops, k - 1);
      LoopStep(RunOps(reg, ops[..k - 1]), ops[k - 1]);
    }
  }

  /** One renewal onto an existing record is enough: 1 is replaced by 2, and then 2 by 1. */
  lemma RenewalLoop(settings: Settings)
    ensures var a, b := Facts("a", 100), Facts("b", 200);
            var reg := RunOps(Registry(map[], 1, settings), [Create(a, ""), Renew(1, b, 0), Renew(2, a, 0)]);
            Follow(reg, 1, 2) == Some(1)
  {
    var a, b := Facts("a", 100), Facts("b", 200);
    var r0 := Registry(map[], 1, settings);
    var r1 := Apply(r0, Create(a, "")).reg;
    var r2 := Apply(r1, Renew(1, b, 0)).reg;
    var r3 := Apply(r2, Renew(2, a, 0)).reg;
    var ops := [Create(a, ""), Renew(1, b, 0), Renew(2, a, 0)];
    assert "a" != "b" by { assert "a"[0] != "b"[0]; }
    assert FindByFingerprint(r0, "a").None?;
    assert FindByFingerprint(r1, "b").None?;
    assert FindByFingerprint(r2, "a") == Some(1);
    RunNext(r0, ops, 0);
    RunNext(r0, ops, 1);
    RunNext(r0, ops, 2);
    assert ops[..3] == ops;
    assert Follow(r3, 1, 2) == Follow(r3, 2, 1) == Follow(r3, 1, 0);
  }

  // ---------------------------------------------------------------- chains that only lead to later records

  /** Every replacement is a later record than what it replaced. */
  ghost predicate ChainsClimb(reg: Registry) {
    forall id :: id in reg.certs && reg.certs[id].supersededBy.Some? ==> reg.certs[id].supersededBy.value > id
  }

  /** The renewal would link to a record registered before the one it replaces. */
  predicate LinksBack(reg: Registry, op: Op) {
    Replaces(reg, op)
    && var heir := FindByFingerprint(reg, op.facts.fingerprint); heir.Some? && heir.value < op.id
  }

  /** An operation keeps chains climbing exactly when it is not a renewal onto an older record. */
  lemma ClimbStep(reg: Registry, op: Op)
    requires RegistryOk(reg) && ChainsClimb(reg)
    ensures ChainsClimb(Apply(reg, op).reg) <==> !LinksBack(reg, op)
  {
    var reg' := Apply(reg, op).reg;
    assert forall id :: id in reg.certs ==> CertOk(reg, id);
    if Replaces(reg, op) {
      var (reg1, successor, created) := CreateFromFacts(reg, op.facts, reg.certs[op.id].ownerEmail);
      assert successor != op.id;
      assert reg'.certs[op.id].supersededBy == Some(successor);
      if LinksBack(reg, op) { assert !(reg'.certs[op.id].supersededBy.value > op.id); }
    }
  }

  /** Over a whole history in which no renewal goes back to an older record, chains only climb. */
  lemma {:induction false} ClimbHistory(reg: Registry, ops: seq<Op>)
    requires RegistryOk(reg) && ChainsClimb(reg)
    requires forall k :: 0 <= k < |ops| ==> !LinksBack(RunOps(reg, ops[..k]), ops[k])
    ensures ChainsClimb(RunOps(reg, ops))
  {
    if ops != [] {
      var n := |ops| - 1;
      forall k | 0 <= k < n ensures !LinksBack(RunOps(reg, ops[..n][..k]), ops[..n][k]) {
        assert ops[..n][..k] == ops[..k];
      }
      ClimbHistory(reg, ops[..n]);
      HistoryKeepsOk(reg, ops[..n]);
      ClimbStep(RunOps(reg, ops[..n]), ops[n]);
    }
  }

  /** A chain that climbs is strictly increasing, so it ends and never comes back. */
  lemma {:induction false} ChainsEnd(reg: Registry, id: int, steps: nat)
    requires RegistryOk(reg) && ChainsClimb(reg)
    ensures var r := Follow(reg, id, steps); r.Some? ==> id + steps <= r.value < reg.nextId
    decreases steps
  {
    if id in reg.certs {
      assert CertOk(reg, id);
      if steps > 0 && reg.certs[id].supersededBy.Some? { ChainsEnd(reg, reg.certs[id].supersededBy.value, steps - 1); }
    }
  }

  /** Going back to an older record need not close a loop: 2 is replaced by 1, which nothing replaced. */
  lemma BackWithoutLoop(settings: Settings)
    ensures var a, b := Facts("a", 100), Facts("b", 200);
            var reg := RunOps(Registry(map[], 1, settings), [Create(a, ""), Create(b, "")]);
            LinksBack(reg, Renew(2, a, 0)) && Acyclic(Apply(reg, Renew(2, a, 0)).reg)
  {
    var a, b := Facts("a", 100), Facts("b", 200);
    var r0 := Registry(map[], 1, settings);
    var r1 := Apply(r0, Create(a, "")).reg;
    var r2 := Apply(r1, Create(b, "")).reg;
    var ops := [Create(a, ""), Create(b, "")];
    assert "a" != "b" by { assert "a"[0] != "b"[0]; }
    assert FindByFingerprint(r0, "a").None?;
    assert FindByFingerprint(r1, "b").None?;
    assert FindByFingerprint(r2, "a") == Some(1);
    RunNext(r0, ops, 0);
    RunNext(r0, ops, 1);
    assert ops[..2] == ops;
    HistoryKeepsOk(r0, ops);
    LoopStep(r2, Renew(2, a, 0));
  }
}
