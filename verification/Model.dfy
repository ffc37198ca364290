/** The stored rows the jobs and routes read, and each record's effective settings. */
module Model {
  import opened Common
  import opened Text

  datatype Source = Upload | Manual
  datatype CertStatus = Active | Archived

  /** One registered certificate; dates are day numbers. */
  datatype Cert = Cert(
    id: int,
    notAfter: int,
    source: Source,
    verified: bool,
    fingerprint: Option<string>,
    status: CertStatus,
    archivedAt: Option<int>,
    supersededBy: Option<int>,
    muted: bool,
    ownerEmail: string,
    extraRecipients: seq<string>,
    replaceDefaults: bool,
    reminderDays: Option<seq<int>>,
    renewLeadDays: Option<int>,
    alarmDays: Option<seq<int>>
  ) {
    function DaysLeft(today: int): int { notAfter - today }

    /** An empty list of reminder days means the same as none at all. */
    function Thresholds(defaults: Settings): seq<int> {
      if reminderDays.Some? && reminderDays.value != [] then reminderDays.value else defaults.thresholds
    }

    function EffectiveRenewLead(defaults: Settings): int {
      if renewLeadDays.None? then defaults.renewLeadDays else renewLeadDays.value
    }

    /** Here an empty list is an override of its own. */
    function EffectiveAlarms(defaults: Settings): seq<int> {
      if alarmDays.None? then defaults.alarmDays else alarmDays.value
    }
  }

  /**
   * The settings row, together with what the environment says about mail
   * (`emailConfigured`) and what the webhook validator says about the stored
   * address (`webhookAllowed`).
   */
  datatype Settings = Settings(
    recipients: seq<string>,
    calendarRecipients: seq<string>,
    teamsWebhook: string,
    thresholds: seq<int>,
    notifyWhenExpired: bool,
    expiredTeamsEveryHours: int,
    renewLeadDays: int,
    alarmDays: seq<int>,
    emailConfigured: bool,
    webhookAllowed: bool
  )

  /** How two spellings of one address are recognised. */
  function Fold(address: string): string { Lower(Strip(address)) }

  /** Addresses once each whatever their spelling, the first spelling trimmed and kept, blanks dropped. */
  function Unique(values: seq<string>, seen: set<string> := {}): seq<string> {
    if values == [] then []
    else if Strip(values[0]) != "" && Fold(values[0]) !in seen
    then [Strip(values[0])] + Unique(values[1..], seen + {Fold(values[0])})
    else Unique(values[1..], seen)
  }

  function WithOwner(cert: Cert, base: seq<string>): seq<string> {
    base + cert.extraRecipients + (if cert.ownerEmail != "" then [cert.ownerEmail] else [])
  }

  function RecipientsFor(cert: Cert, settings: Settings): seq<string> {
    Unique(WithOwner(cert, if cert.replaceDefaults then [] else settings.recipients))
  }

  /** A separate calendar list, if there is one, stands in for the defaults. */
  function CalendarRecipientsFor(cert: Cert, settings: Settings): seq<string> {
    Unique(WithOwner(cert,
                     if cert.replaceDefaults then []
                     else if settings.calendarRecipients != [] then settings.calendarRecipients
                     else settings.recipients))
  }

  /** The list names this address, in some spelling. */
  predicate Names(list: seq<string>, address: string) { Holds(list, Fold(address)) }

  predicate Holds(list: seq<string>, key: string) { list != [] && (Fold(list[0]) == key || Holds(list[1..], key)) }

  ghost predicate NoneTwice(list: seq<string>) {
    forall i, j :: 0 <= i < j < |list| ==> Fold(list[i]) != Fold(list[j])
  }

  lemma FoldTrimmed(s: string)
    ensures Strip(Strip(s)) == Strip(s) && Fold(Strip(s)) == Fold(s)
  {
    Stripped(s);
  }

  lemma {:induction false} HoldsConcat(a: seq<string>, b: seq<string>, key: string)
    ensures Holds(a + b, key) <==> Holds(a, key) || Holds(b, key)
  {
    if a == [] { assert a + b == b; } else {
      assert (a + b)[1..] == a[1..] + b;
      HoldsConcat(a[1..], b, key);
    }
  }

  lemma HoldsOne(address: string, key: string)
    ensures Holds([address], key) <==> Fold(address) == key
  {
    assert [address][1..] == [];
  }

  lemma {:induction false} UniqueHolds(values: seq<string>, seen: set<string>, key: string)
    requires key != ""
    ensures Holds(Unique(values, seen), key) <==> key !in seen && Holds(values, key)
  {
    if values != [] {
      FoldTrimmed(values[0]);
      var key0 := Fold(values[0]);
      if Strip(values[0]) != "" && key0 !in seen {
        UniqueHolds(values[1..], seen + {key0}, key);
        HoldsOne(Strip(values[0]), key);
        HoldsConcat([Strip(values[0])], Unique(values[1..], seen + {key0}), key);
      } else {
        UniqueHolds(values[1..], seen, key);
      }
    }
  }

  /** No spelling comes twice, and none that was seen before comes again. */
  lemma {:induction false} UniqueOnce(values: seq<string>, seen: set<string>)
    ensures NoneTwice(Unique(values, seen))
    ensures forall i :: 0 <= i < |Unique(values, seen)| ==> Fold(Unique(values, seen)[i]) !in seen
  {
    if values != [] {
      FoldTrimmed(values[0]);
      var key0 := Fold(values[0]);
      if Strip(values[0]) != "" && key0 !in seen {
        UniqueOnce(values[1..], seen + {key0});
      } else {
        UniqueOnce(values[1..], seen);
      }
    }
  }

  /** One more address goes to the end, unless it is blank or already there in some spelling. */
  lemma {:induction false} UniqueOrder(values: seq<string>, next: string, seen: set<string>)
    ensures Unique(values + [next], seen)
            == Unique(values, seen)
               + if Strip(next) == "" || Fold(next) in seen || Names(values, next) then [] else [Strip(next)]
  {
    if values == [] {
      assert Unique([next][1..], seen + {Fold(next)}) == [] && Unique([next][1..], seen) == [];
      assert [] + [next] == [next];
    } else {
      var key0, rest := Fold(values[0]), values[1..];
      assert (values + [next])[1..] == rest + [next];
      if Strip(values[0]) != "" && key0 !in seen { UniqueOrder(rest, next, seen + {key0}); }
      else {
        UniqueOrder(rest, next, seen);
        if Strip(values[0]) == "" && Strip(next) != "" { assert key0 == "" != Fold(next); }
      }
    }
  }

  /** Spellings that differ in the case of letters, or in blanks around them, name the same address. */
  lemma SameAddress(a: string, b: string)
    requires SameLetters(Strip(a), Strip(b))
    ensures Fold(a) == Fold(b) && Names([a], b)
  {
    LowerSame(Strip(a), Strip(b));
    HoldsOne(a, Fold(b));
  }

  /** And other spellings do not. */
  lemma OtherAddress(a: string, b: string)
    requires Fold(a) == Fold(b)
    ensures |Strip(a)| == |Strip(b)| && forall i :: 0 <= i < |Strip(a)| ==>
              LowerChar(Strip(a)[i]) == LowerChar(Strip(b)[i])
  {
    LowerAt(Strip(a));
    LowerAt(Strip(b));
  }

  /**
   * Who is told: the owner and the certificate's own people always, the default
   * list (for calendars the separate list, if there is one) unless the
   * certificate replaces it; each address once, however it is spelt.
   */
  lemma Audience(cert: Cert, settings: Settings, address: string)
    requires Fold(address) != ""
    ensures Names(RecipientsFor(cert, settings), address)
            <==> Fold(cert.ownerEmail) == Fold(address) || Names(cert.extraRecipients, address)
                 || (!cert.replaceDefaults && Names(settings.recipients, address))
    ensures Names(CalendarRecipientsFor(cert, settings), address)
            <==> Fold(cert.ownerEmail) == Fold(address) || Names(cert.extraRecipients, address)
                 || (!cert.replaceDefaults
                     && Names(if settings.calendarRecipients != [] then settings.calendarRecipients
                              else settings.recipients, address))
    ensures NoneTwice(RecipientsFor(cert, settings)) && NoneTwice(CalendarRecipientsFor(cert, settings))
  {
    var base := if cert.replaceDefaults then [] else settings.recipients;
    var calendarBase := if cert.replaceDefaults then []
                        else if settings.calendarRecipients != [] then settings.calendarRecipients
                        else settings.recipients;
    UniqueOnce(WithOwner(cert, base), {});
    UniqueOnce(WithOwner(cert, calendarBase), {});
    UniqueHolds(WithOwner(cert, base), {}, Fold(address));
    UniqueHolds(WithOwner(cert, calendarBase), {}, Fold(address));
    WithOwnerNames(cert, base, address);
    WithOwnerNames(cert, calendarBase, address);
  }

  lemma WithOwnerNames(cert: Cert, base: seq<string>, address: string)
    requires Fold(address) != ""
    ensures Names(WithOwner(cert, base), address)
            <==> Fold(cert.ownerEmail) == Fold(address) || Names(cert.extraRecipients, address) || Names(base, address)
  {
    var key := Fold(address);
    HoldsConcat(base, cert.extraRecipients, key);
    HoldsConcat(base + cert.extraRecipients, if cert.ownerEmail != "" then [cert.ownerEmail] else [], key);
    HoldsOne(cert.ownerEmail, key);
  }
}
