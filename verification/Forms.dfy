/** The settings form and a certificate's form: what is read from them, and what an untouched one saves. */
module Forms {
  import opened Common
  import opened Model
  import opened Text
  import opened DayLists
  import Calendar
  import Reg = Registry

  // ---------------------------------------------------------------- one number

  function Clamp(n: int, low: int, high: int): int
    requires low <= high
  {
    if n < low then low else if n > high then high else n
  }

  /** A number of days, or none to follow the global setting. */
  function OptionalInt(value: string): Reading<Option<int>> {
    var cleaned := Strip(value);
    if !LooksNumeric(cleaned) then Read(None)
    else if !Converts(cleaned) then Unreadable
    else if Value(cleaned) > 3650 then Read(Some(3650)) else Read(Some(Value(cleaned)))
  }

  /** A readable number field is none unless it is a number, and then that number, or 3650 if it is more. */
  lemma OptionalIntIs(value: string)
    requires OptionalInt(value).Read?
    ensures match OptionalInt(value).value
            case None => !IsNumber(Strip(value))
            case Some(n) => IsNumber(Strip(value)) && n <= Value(Strip(value)) && n <= 3650
                            && (n == Value(Strip(value)) || n == 3650)
  {
  }

  function ShowNumber(n: Option<int>): string
    requires n.Some? ==> n.value >= 0
  {
    if n.None? then "" else Decimal(n.value)
  }

  /** What the field can store. */
  predicate FitNumber(n: Option<int>) { n.Some? ==> 0 <= n.value <= 3650 }

  /** Whatever was typed, if it can be read, showing the number and reading it again gives the same. */
  lemma NumberIsStable(text: string)
    ensures var n := OptionalInt(text); n.Read? ==> FitNumber(n.value) && OptionalInt(ShowNumber(n.value)) == n
  {
    if OptionalInt(text).Read? { NumberRoundTrip(OptionalInt(text).value); }
  }

  lemma NumberRoundTrip(n: Option<int>)
    requires FitNumber(n)
    ensures OptionalInt(ShowNumber(n)) == Read(n)
  {
    if n.Some? {
      DecimalReads(n.value);
      StripDigits(Decimal(n.value));
      assert Pow10(3) == 1000 && Pow10(4) == 10000 by { assert Pow10(1) == 10 && Pow10(2) == 100; }
      DecimalLength(n.value, 4);
    }
  }

  // ---------------------------------------------------------------- addresses

  /** Each part cleaned, the empty ones dropped. */
  function Kept(parts: seq<string>, clean: string -> string): seq<string> {
    if parts == [] then []
    else (if clean(parts[0]) != "" then [clean(parts[0])] else []) + Kept(parts[1..], clean)
  }

  /** A certificate's own people: trimmed by the route, cleaned by the service. */
  function CleanAddress(s: string): string { CleanText(Strip(s)) }

  function Addresses(value: string): seq<string> { Kept(PartsOf(value), CleanAddress) }

  /** The settings page's lists, where a semicolon separates too. */
  function SettingsAddresses(value: string): seq<string> {
    Kept(SettingsPartsOf(value), CleanText)
  }

  function Join(list: seq<string>): string {
    if list == [] then "" else if |list| == 1 then list[0] else list[0] + ", " + Join(list[1..])
  }

  function Map(list: seq<string>, clean: string -> string): seq<string> {
    if list == [] then [] else [clean(list[0])] + Map(list[1..], clean)
  }

  /** Neither separator nor blank to the cleaner; a leading space makes no difference. */
  ghost predicate Readable(a: string, clean: string -> string) {
    Plain(a) && clean(a) != "" && clean(" " + a) == clean(a)
  }

  /** A shown list is read back address by address. */
  lemma {:induction false} ReadShown(list: seq<string>, lead: string, clean: string -> string)
    requires list != [] && (lead == "" || lead == " ") && forall a :: a in list ==> Readable(a, clean)
    ensures Kept(SplitCommas(lead + Join(list)), clean) == Map(list, clean)
  {
    var a := list[0];
    assert a in list;
    assert "" + a == a;
    if |list| == 1 {
      SplitPlain(lead + a);
      KeptStep(lead + a, [], clean);
      assert [lead + a] + [] == [lead + a];
      assert Map(list[1..], clean) == [];
    } else {
      var rest := list[1..];
      assert forall b :: b in rest ==> b in list;
      ReadShown(rest, " ", clean);
      Regroup(lead, a, Join(rest));
      SplitAtComma(lead + a, " " + Join(rest));
      KeptStep(lead + a, SplitCommas(" " + Join(rest)), clean);
    }
  }

  lemma KeptStep(part: string, rest: seq<string>, clean: string -> string)
    requires clean(part) != ""
    ensures Kept([part] + rest, clean) == [clean(part)] + Kept(rest, clean)
  {
    assert ([part] + rest)[1..] == rest;
  }

  lemma {:induction false} MapSame(list: seq<string>, clean: string -> string)
    ensures Map(list, clean) == list <==> forall a :: a in list ==> clean(a) == a
  {
    if list != [] {
      MapSame(list[1..], clean);
      assert forall a :: a in list <==> a == list[0] || a in list[1..];
      assert list == [list[0]] + list[1..];
    }
  }

  /** Address by address: one part is its cleaned text, or nothing if that is empty; parts come in order. */
  lemma AddressesAre(a: string, separator: char, b: string)
    requires ',' !in a && '\n' !in a && separator in {',', '\n'}
    ensures var first := CleanText(Strip(a));
            && Addresses(a) == (if first == "" then [] else [first])
            && Addresses(a + [separator] + b) == Addresses(a) + Addresses(b)
  {
    PartsAre(a, separator, b);
    KeptFirst(a, PartsOf(b), CleanAddress);
  }

  lemma SettingsAddressesAre(a: string, separator: char, b: string)
    requires ',' !in a && ';' !in a && '\n' !in a && separator in {',', ';', '\n'}
    ensures var first := CleanText(a);
            && SettingsAddresses(a) == (if first == "" then [] else [first])
            && SettingsAddresses(a + [separator] + b) == SettingsAddresses(a) + SettingsAddresses(b)
  {
    SettingsPartsAre(a, separator, b);
    KeptFirst(a, SettingsPartsOf(b), CleanText);
  }

  lemma KeptFirst(part: string, rest: seq<string>, clean: string -> string)
    ensures Kept([part], clean) == if clean(part) == "" then [] else [clean(part)]
    ensures Kept([part] + rest, clean) == Kept([part], clean) + Kept(rest, clean)
  {
    assert [part][1..] == [] && ([part] + rest)[1..] == rest;
    assert Kept([], clean) == [];
  }

  // ---------------------------------------------------------------- what cleaning leaves

  ghost predicate NoControl(s: string) { forall i :: 0 <= i < |s| ==> !IsControl(s[i]) }

  lemma {:induction false} ControlGone(s: string)
    ensures NoControl(WithoutControl(s)) && (NoControl(s) ==> WithoutControl(s) == s)
    ensures forall c :: c in WithoutControl(s) ==> c in s
  {
    if s != "" {
      ControlGone(s[1..]);
      assert [s[0]] + s[1..] == s;
    }
  }

  lemma {:induction false} StripWithin(s: string)
    ensures NoControl(s) ==> NoControl(Strip(s))
    ensures forall c :: c in Strip(s) ==> c in s
    decreases |s|
  {
    if s != "" && IsBlank(s[0]) { StripWithin(s[1..]); }
    else if s != "" && IsBlank(s[|s| - 1]) { StripWithin(s[..|s| - 1]); }
  }

  lemma {:induction false} StripKeeps(s: string)
    requires s != "" && !IsBlank(s[0])
    ensures Strip(s) != ""
    decreases |s|
  {
    if |s| > 1 && IsBlank(s[|s| - 1]) { StripKeeps(s[..|s| - 1]); }
  }

  /** What cleaning leaves: no control characters, no blank in front, a sane length. */
  ghost predicate Tidy(s: string) { NoControl(s) && |s| <= LIMIT && (s != "" ==> !IsBlank(s[0])) }

  /** The text ends in a blank, which cutting it off at the limit can bring about. */
  predicate Ragged(s: string) { s != "" && IsBlank(s[|s| - 1]) }

  ghost predicate AnyRagged(list: seq<string>) { exists a :: a in list && Ragged(a) }

  ghost predicate Among(a: string, b: string) { forall c :: c in a ==> c in b }

  /** Cleaning tidies; done again it changes what is ragged and nothing else. */
  ghost predicate CleansOne(clean: string -> string, s: string) {
    && Tidy(clean(s)) && Among(clean(s), s)
    && (Tidy(s) ==> (clean(s) == s <==> !Ragged(s)) && (s != "" ==> clean(s) != "") && clean(" " + s) == clean(s))
  }

  ghost predicate Cleaner(clean: string -> string) { forall s :: CleansOne(clean, s) }

  lemma TidyText(s: string)
    ensures Tidy(CleanText(s)) && Among(CleanText(s), s)
  {
    ControlGone(s);
    StripWithin(WithoutControl(s));
    Stripped(WithoutControl(s));
    var stripped := Strip(WithoutControl(s));
    assert Among(stripped, s);
    assert forall c :: c in stripped[..|CleanText(s)|] ==> c in stripped;
  }

  lemma TidyAddress(s: string)
    ensures Tidy(CleanAddress(s)) && Among(CleanAddress(s), s)
  {
    TidyText(Strip(s));
    StripWithin(s);
  }

  lemma CleanAgain(s: string)
    requires Tidy(s)
    ensures CleanText(s) == CleanAddress(s) == Strip(s) && (Strip(s) == s <==> !Ragged(s))
    ensures s != "" ==> Strip(s) != ""
    ensures CleanText(" " + s) == CleanAddress(" " + s) == Strip(s)
  {
    ControlGone(s);
    StripWithin(s);
    ControlGone(Strip(s));
    FoldTrimmed(s);
    if s != "" { StripKeeps(s); }
    LeadingBlank(s);
    if Ragged(s) { assert |Strip(s)| <= |s| - 1; }
  }

  lemma LeadingBlank(s: string)
    ensures Strip(" " + s) == Strip(s) && WithoutControl(" " + s) == " " + WithoutControl(s)
  {
    assert (" " + s)[1..] == s;
  }

  lemma TextCleans()
    ensures Cleaner(CleanText)
  {
    forall s: string ensures CleansOne(CleanText, s) {
      TidyText(s);
      if Tidy(s) { CleanAgain(s); }
    }
  }

  lemma AddressCleans()
    ensures Cleaner(CleanAddress)
  {
    forall s: string ensures CleansOne(CleanAddress, s) {
      TidyAddress(s);
      if Tidy(s) { CleanAgain(s); }
    }
  }

  // ---------------------------------------------------------------- address lists, shown and saved again

  /** What a stored address looks like. */
  ghost predicate Address(a: string) { a != "" && Tidy(a) && Plain(a) }

  ghost predicate AllAddresses(list: seq<string>) { forall a :: a in list ==> Address(a) }

  /** What is kept are addresses, and a character that is in no part is in none of them. */
  lemma {:induction false} KeptAddresses(parts: seq<string>, clean: string -> string, c: char)
    requires Cleaner(clean) && forall p :: p in parts ==> Plain(p) && c !in p
    ensures forall a :: a in Kept(parts, clean) ==> Address(a) && c !in a
  {
    if parts != [] {
      assert parts[0] in parts && forall p :: p in parts[1..] ==> p in parts;
      KeptAddresses(parts[1..], clean, c);
      assert CleansOne(clean, parts[0]);
      PlainWithin(clean(parts[0]), parts[0]);
    }
  }

  lemma PlainWithin(a: string, b: string)
    requires Among(a, b) && Plain(b)
    ensures Plain(a)
  {
    forall i | 0 <= i < |a| ensures a[i] != ',' { assert a[i] in b; }
  }

  lemma {:induction false} SplitParts(s: string)
    ensures forall p :: p in SplitCommas(s) ==> Plain(p)
    ensures forall p, c :: p in SplitCommas(s) && c in p ==> c in s
  {
    if s != "" {
      SplitParts(s[1..]);
      var rest := SplitCommas(s[1..]);
      assert rest[0] in rest;
      assert forall p :: p in rest[1..] ==> p in rest;
    }
  }

  lemma {:induction false} ReplaceGone(s: string, target: char, with: char)
    requires target != with
    ensures target !in Replace(s, target, with)
    ensures forall c :: c in Replace(s, target, with) ==> c == with || c in s
  {
    if s != "" { ReplaceGone(s[1..], target, with); }
  }

  lemma {:induction false} JoinLacks(list: seq<string>, c: char)
    requires c != ',' && c != ' ' && forall a :: a in list ==> c !in a
    ensures c !in Join(list)
  {
    if list != [] {
      assert list[0] in list;
      assert forall a :: a in list[1..] ==> a in list;
      JoinLacks(list[1..], c);
    }
  }

  lemma AllReadable(list: seq<string>, clean: string -> string)
    requires Cleaner(clean) && AllAddresses(list)
    ensures forall a :: a in list ==> Readable(a, clean) && (clean(a) == a <==> !Ragged(a))
  {
    forall a | a in list ensures Readable(a, clean) && (clean(a) == a <==> !Ragged(a)) {
      assert Address(a) && CleansOne(clean, a);
    }
  }

  /** Showing a stored list and reading it gives the list back if and only if no address in it is ragged. */
  lemma ListReadsBack(list: seq<string>, clean: string -> string)
    requires Cleaner(clean) && AllAddresses(list)
    ensures Kept(SplitCommas(Join(list)), clean) == list <==> !AnyRagged(list)
  {
    AllReadable(list, clean);
    MapSame(list, clean);
    if list == [] {
      assert CleansOne(clean, "");
      assert SplitCommas("") == [""] && Kept([""][1..], clean) == [];
    } else {
      assert "" + Join(list) == Join(list);
      ReadShown(list, "", clean);
    }
  }

  /** No separator comes from inside an address. */
  lemma JoinStays(list: seq<string>, separator: char)
    requires separator != ',' && separator != ' ' && forall a :: a in list ==> separator !in a
    ensures Replace(Join(list), separator, ',') == Join(list)
  {
    JoinLacks(list, separator);
    assert forall i :: 0 <= i < |Join(list)| ==> Join(list)[i] in Join(list);
    ReplaceAbsent(Join(list), separator, ',');
  }

  lemma NoBreaks(list: seq<string>)
    requires AllAddresses(list)
    ensures forall a :: a in list ==> '\n' !in a
  {
    forall a | a in list ensures '\n' !in a { assert Address(a); }
  }

  lemma AddressesBack(list: seq<string>)
    requires AllAddresses(list)
    ensures Addresses(Join(list)) == list <==> !AnyRagged(list)
  {
    AddressCleans();
    NoBreaks(list);
    JoinStays(list, '\n');
    ListReadsBack(list, CleanAddress);
  }

  lemma SettingsAddressesBack(list: seq<string>)
    requires AllAddresses(list) && forall a :: a in list ==> ';' !in a
    ensures SettingsAddresses(Join(list)) == list <==> !AnyRagged(list)
  {
    TextCleans();
    NoBreaks(list);
    JoinStays(list, '\n');
    JoinStays(list, ';');
    ListReadsBack(list, CleanText);
  }

  lemma PartsLack(s: string, c: char)
    requires c !in s
    ensures forall p :: p in SplitCommas(s) ==> Plain(p) && c !in p
  {
    SplitParts(s);
  }

  lemma AddressesStored(text: string)
    ensures AllAddresses(Addresses(text))
  {
    AddressCleans();
    var s := Replace(text, '\n', ',');
    ReplaceGone(text, '\n', ',');
    PartsLack(s, '\n');
    KeptAddresses(SplitCommas(s), CleanAddress, '\n');
  }

  lemma SettingsAddressesStored(text: string)
    ensures AllAddresses(SettingsAddresses(text)) && forall a :: a in SettingsAddresses(text) ==> ';' !in a
  {
    TextCleans();
    var s := Replace(Replace(text, '\n', ','), ';', ',');
    ReplaceGone(Replace(text, '\n', ','), ';', ',');
    PartsLack(s, ';');
    KeptAddresses(SplitCommas(s), CleanText, ';');
  }

  // ---------------------------------------------------------------- one certificate's form

  datatype CertForm = CertForm(owner: string, extra: string, replace: bool, muted: bool, reminderDays: string,
                               renewLead: string, alarmDays: string)

  /** The edit a submitted form asks for, if its three number fields can be read. */
  function UpdateOp(id: int, form: CertForm): Reading<Reg.Op> {
    var reminders, lead, alarms := DayList(form.reminderDays), OptionalInt(form.renewLead), DayList(form.alarmDays);
    if reminders.Unreadable? || lead.Unreadable? || alarms.Unreadable? then Unreadable
    else Read(Reg.Update(id, CleanText(form.owner), Addresses(form.extra), form.replace, form.muted, reminders.value,
                         lead.value, alarms.value))
  }

  /** Some part of the field jams. */
  ghost predicate FieldJams(value: string) { exists p :: p in PartsOf(value) && Jams(Strip(p)) }

  /** A certificate's form fails to save if and only if its lead, or a part of one of its day lists, jams. */
  lemma UpdateReadIff(id: int, form: CertForm)
    ensures UpdateOp(id, form).Unreadable?
            <==> Jams(Strip(form.renewLead)) || FieldJams(form.reminderDays) || FieldJams(form.alarmDays)
  {
    NumbersReadIff(PartsOf(form.reminderDays), Strip);
    NumbersReadIff(PartsOf(form.alarmDays), Strip);
  }

  /** A record as some form left it. */
  ghost predicate FitCert(cert: Cert) {
    && Tidy(cert.ownerEmail) && AllAddresses(cert.extraRecipients)
    && FitDays(cert.reminderDays) && FitNumber(cert.renewLeadDays) && FitDays(cert.alarmDays)
  }

  /** The form as the certificate's page shows it. */
  ghost function ShownForm(cert: Cert): CertForm
    requires FitCert(cert)
  {
    CertForm(cert.ownerEmail, Join(cert.extraRecipients), cert.replaceDefaults, cert.muted,
             ShowOverride(cert.reminderDays), ShowNumber(cert.renewLeadDays), ShowOverride(cert.alarmDays))
  }

  lemma {:induction false} NothingDropped(list: seq<string>)
    requires forall a :: a in list ==> a != ""
    ensures Filter(list, x => x != "") == list
  {
    if list != [] {
      assert list[0] in list;
      assert forall a :: a in list[1..] ==> a in list;
      NothingDropped(list[1..]);
      assert list == [list[0]] + list[1..];
    }
  }

  /** Whatever a form says, the record it leaves is fit. */
  lemma UpdateFits(cert: Cert, id: int, form: CertForm)
    ensures var op := UpdateOp(id, form); op.Read? ==> FitCert(Reg.Edited(cert, op.value))
  {
    TidyText(form.owner);
    AddressesStored(form.extra);
    NothingDropped(Addresses(form.extra));
    ReadDaysFit(form.reminderDays);
    ReadDaysFit(form.alarmDays);
    NumberIsStable(form.renewLead);
  }

  /** The shown form asks for the stored values back, except that ragged addresses lose their ends. */
  lemma ShownOp(id: int, cert: Cert)
    requires FitCert(cert)
    ensures UpdateOp(id, ShownForm(cert)).Read?
    ensures var op := UpdateOp(id, ShownForm(cert)).value;
            && op == Reg.Update(id, op.owner, op.extra, cert.replaceDefaults, cert.muted, cert.reminderDays,
                                cert.renewLeadDays, cert.alarmDays)
            && (op.owner == cert.ownerEmail <==> !Ragged(cert.ownerEmail))
            && (op.extra == cert.extraRecipients <==> !AnyRagged(cert.extraRecipients))
            && AllAddresses(op.extra)
  {
    CleanAgain(cert.ownerEmail);
    AddressesBack(cert.extraRecipients);
    AddressesStored(Join(cert.extraRecipients));
    OverrideRoundTrip(cert.reminderDays);
    OverrideRoundTrip(cert.alarmDays);
    NumberRoundTrip(cert.renewLeadDays);
  }

  /** An edit that repeats everything but the people announces the record exactly when the people changed. */
  lemma EditedPeople(reg: Reg.Registry, op: Reg.Op)
    requires op.Update? && op.id in reg.certs && AllAddresses(op.extra)
    requires var cert := reg.certs[op.id];
             op == Reg.Update(op.id, op.owner, op.extra, cert.replaceDefaults, cert.muted, cert.reminderDays,
                              cert.renewLeadDays, cert.alarmDays)
    ensures var cert := reg.certs[op.id];
            var same := op.owner == cert.ownerEmail && op.extra == cert.extraRecipients;
            && (Reg.Edited(cert, op) == cert <==> same)
            && (Reg.Apply(reg, op).mailings == [] <==> same || cert.status == Archived)
  {
    assert forall a :: a in op.extra ==> Address(a);
    NothingDropped(op.extra);
    var cert, edited := reg.certs[op.id], Reg.Edited(reg.certs[op.id], op);
    assert edited.ownerEmail == op.owner && edited.extraRecipients == op.extra;
  }

  /**
   * Saving a certificate's form as shown changes nothing, and so publishes
   * nothing, if and only if neither the owner nor any of its own people is
   * stored with a ragged end.
   */
  lemma UntouchedCertificate(reg: Reg.Registry, id: int)
    requires id in reg.certs && FitCert(reg.certs[id])
    ensures var cert := reg.certs[id];
            var op, ragged := UpdateOp(id, ShownForm(cert)), Ragged(cert.ownerEmail) || AnyRagged(cert.extraRecipients);
            && op.Read?
            && (Reg.Edited(cert, op.value) == cert <==> !ragged)
            && (Reg.Apply(reg, op.value).mailings == [] <==> !ragged || cert.status == Archived)
  {
    ShownOp(id, reg.certs[id]);
    EditedPeople(reg, UpdateOp(id, ShownForm(reg.certs[id])).value);
  }

  /** An address cut off right after a blank is stored with a ragged end. */
  lemma CutAddress(a: string, rest: string)
    requires |a| == LIMIT - 1 && NoControl(a) && Plain(a) && !IsBlank(a[0]) && !IsBlank(a[|a| - 1])
    requires rest != "" && NoControl(rest) && Plain(rest) && !IsBlank(rest[|rest| - 1])
    ensures Addresses(a + " " + rest) == [a + " "] && AnyRagged(Addresses(a + " " + rest))
    ensures Addresses(Join([a + " "])) == [a]
  {
    var text := a + " " + rest;
    ControlGone(text);
    assert Strip(text) == text;
    assert text[..LIMIT] == a + " ";
    OneAddress(text);
    CutAgain(a);
    assert (a + " ") in [a + " "] && Ragged(a + " ");
  }

  lemma CutAgain(a: string)
    requires 0 < |a| < LIMIT && NoControl(a) && Plain(a) && !IsBlank(a[0]) && !IsBlank(a[|a| - 1])
    ensures Addresses(Join([a + " "])) == [a]
  {
    assert (a + " ")[..|a + " "| - 1] == a;
    assert Strip(a + " ") == Strip(a) == a;
    ControlGone(a);
    OneAddress(a + " ");
  }

  lemma OneAddress(text: string)
    requires NoControl(text) && Plain(text) && CleanAddress(text) != ""
    ensures Addresses(text) == [CleanAddress(text)]
  {
    assert forall i :: 0 <= i < |text| ==> text[i] != '\n';
    ReplaceAbsent(text, '\n', ',');
    SplitPlain(text);
    assert [text][1..] == [] && Kept([], CleanAddress) == [];
  }

  // ---------------------------------------------------------------- thresholds

  function WithoutDashes(s: string): (r: string)
    ensures |r| <= |s|
  {
    if s != "" && s[0] == '-' then WithoutDashes(s[1..]) else s
  }

  /** Past its dashes the part passes for a number, but with more than one dash or such a numeral it is none. */
  predicate Malformed(part: string) {
    var digits := WithoutDashes(part);
    LooksNumeric(digits) && (|part| - |digits| >= 2 || !Converts(digits))
  }

  /** The numbers from zero up among the parts; nothing at all once one of them cannot be converted. */
  function ThresholdNumbers(parts: seq<string>): Reading<seq<int>> {
    if parts == [] then Read([])
    else
      var part, rest := CleanText(parts[0]), ThresholdNumbers(parts[1..]);
      if !LooksNumeric(WithoutDashes(part)) then rest
      else if Malformed(part) || rest.Unreadable? then Unreadable
      else
        var n: int := Value(WithoutDashes(part));
        var signed := if part[0] == '-' then -n else n;
        Read((if signed >= 0 then [signed] else []) + rest.value)
  }

  const DEFAULT_THRESHOLDS: seq<int> := [60, 30, 14, 7, 1]

  function ParseThresholds(value: string): Reading<seq<int>> {
    var numbers := ThresholdNumbers(SettingsPartsOf(value));
    if numbers.Unreadable? then Unreadable
    else Read(if numbers.value == [] then DEFAULT_THRESHOLDS else Reverse(SortedSet(numbers.value)))
  }

  /** What the field stores: at least one number, none negative, strictly descending. */
  ghost predicate FitThresholds(days: seq<int>) {
    && days != [] && Short(days) && (forall d :: d in days ==> d >= 0)
    && (forall i, j :: 0 <= i < j < |days| ==> days[i] > days[j])
  }

  lemma {:induction false} ThresholdNumbersAre(parts: seq<string>)
    ensures ThresholdNumbers(parts).Unreadable? <==> exists p :: p in parts && Malformed(CleanText(p))
    ensures ThresholdNumbers(parts).Read? ==>
              forall d: int :: d in ThresholdNumbers(parts).value ==> d >= 0 && |Decimal(d)| <= LIMIT
  {
    if parts != [] {
      assert forall p :: p in parts <==> p == parts[0] || p in parts[1..];
      ThresholdNumbersAre(parts[1..]);
      var part := CleanText(parts[0]);
      if LooksNumeric(WithoutDashes(part)) && !Malformed(part) {
        var digits := WithoutDashes(part);
        ValueShort(digits);
        if part[0] == '-' && Value(digits) == 0 { assert |Decimal(0)| == 1; }
      }
    }
  }

  /** Some part of the field is this number, which is not negative; a dash in front of zero makes no difference. */
  ghost predicate TypedThreshold(parts: seq<string>, n: int) {
    exists p :: p in parts && var digits := WithoutDashes(CleanText(p));
      IsNumber(digits) && Value(digits) == n && (CleanText(p) == digits || n == 0)
  }

  lemma {:induction false} ThresholdsTyped(parts: seq<string>)
    requires ThresholdNumbers(parts).Read?
    ensures forall n :: n in ThresholdNumbers(parts).value <==> TypedThreshold(parts, n)
  {
    if parts != [] {
      var part := CleanText(parts[0]);
      ThresholdsTyped(parts[1..]);
      ThresholdFirst(parts);
    }
  }

  lemma ThresholdFirst(parts: seq<string>)
    requires parts != []
    ensures var part := CleanText(parts[0]);
            var digits := WithoutDashes(part);
            forall n :: TypedThreshold(parts, n)
                        <==> (IsNumber(digits) && Value(digits) == n && (part == digits || n == 0))
                             || TypedThreshold(parts[1..], n)
  {
    assert forall p :: p in parts <==> p == parts[0] || p in parts[1..];
  }

  /**
   * A readable threshold field is the numbers from zero up in it, each once,
   * largest first, or 60, 30, 14, 7 and 1 if there are none.
   */
  lemma ParseThresholdsIs(text: string)
    requires ParseThresholds(text).Read?
    ensures var days, parts := ParseThresholds(text).value, SettingsPartsOf(text);
            if exists n :: TypedThreshold(parts, n) then
              && (forall n :: n in days <==> TypedThreshold(parts, n))
              && (forall i, j :: 0 <= i < j < |days| ==> days[i] > days[j])
            else days == [60, 30, 14, 7, 1]
  {
    var numbers := ThresholdNumbers(SettingsPartsOf(text)).value;
    ThresholdsTyped(SettingsPartsOf(text));
    ReverseAt(SortedSet(numbers));
    ReverseMembers(SortedSet(numbers));
    if numbers != [] { assert numbers[0] in numbers; }
  }

  lemma ThresholdsFit(text: string)
    ensures ParseThresholds(text).Read? ==> FitThresholds(ParseThresholds(text).value)
  {
    ThresholdNumbersAre(SettingsPartsOf(text));
    var numbers := ThresholdNumbers(SettingsPartsOf(text));
    DefaultThresholdsFit();
    if numbers.Read? && numbers.value != [] { SortedFit(numbers.value); }
  }

  /**
   * The field is read, and all that is not a number from zero up is passed over,
   * if and only if no part of it is malformed.
   */
  lemma ThresholdsReadIff(text: string)
    ensures ParseThresholds(text).Unreadable? <==> exists p :: p in SettingsPartsOf(text) && Malformed(CleanText(p))
  {
    ThresholdNumbersAre(SettingsPartsOf(text));
  }

  lemma SortedFit(numbers: seq<int>)
    requires numbers != [] && forall d: int :: d in numbers ==> d >= 0 && |Decimal(d)| <= LIMIT
    ensures FitThresholds(Reverse(SortedSet(numbers)))
  {
    ReverseAt(SortedSet(numbers));
    ReverseMembers(SortedSet(numbers));
    assert numbers[0] in SortedSet(numbers);
  }

  lemma DefaultThresholdsFit()
    ensures FitThresholds(DEFAULT_THRESHOLDS)
  {
    assert forall d: nat :: d < 100 ==> |Decimal(d)| <= 2;
  }

  /** `--5` is not passed over like other text: reading it fails. */
  lemma DashesFail()
    ensures ParseThresholds("--5").Unreadable?
  {
    OnePart("--5");
    assert "--5"[1..] == "-5" && "-5"[1..] == "5";
    assert WithoutDashes("--5") == "5";
  }

  /** A superscript two passes for a number and fails to convert, in all four readers. */
  lemma SuperscriptFails()
    ensures OptionalInt("\U{b2}").Unreadable? && DayList("\U{b2}").Unreadable?
    ensures ParseDays("\U{b2}", DEFAULT_ALARMS).Unreadable? && ParseThresholds("\U{b2}").Unreadable?
  {
    var two := "\U{b2}";
    OnePart(two);
    assert Strip(two) == two && Jams(two) && !IsDigit(two[0]);
    assert Numbers([two][1..], Strip) == Read([]) == Numbers([two][1..], CleanText);
  }

  /** So does a numeral that is too long, in a certificate's fields, where nothing is cut off. */
  lemma LongNumberFails(s: string)
    requires IsNumber(s) && |s| > MAX_DIGITS
    ensures OptionalInt(s).Unreadable? && DayList(s).Unreadable?
  {
    StripDigits(s);
    assert forall i :: 0 <= i < |s| ==> IsDigit(s[i]);
    ReplaceAbsent(s, '\n', ',');
    SplitPlain(s);
    assert Numbers([s][1..], Strip) == Read([]);
  }

  lemma OnePart(text: string)
    requires Tidy(text) && !Ragged(text) && Plain(text) && ';' !in text
    ensures SettingsPartsOf(text) == PartsOf(text) == [text] && CleanText(text) == text
    ensures ThresholdNumbers([text][1..]) == Read([])
  {
    CleanAgain(text);
    assert forall i :: 0 <= i < |text| ==> text[i] in text;
    ReplaceAbsent(text, '\n', ',');
    ReplaceAbsent(text, ';', ',');
    SplitPlain(text);
  }

  /** A shown list of thresholds is read back number by number. */
  lemma {:induction false} ThresholdsOfShown(days: seq<int>, lead: string)
    requires days != [] && (forall d :: d in days ==> d >= 0) && Short(days) && (lead == "" || lead == " ")
    ensures ThresholdNumbers(SplitCommas(lead + Show(days))) == Read(days)
  {
    HeadAndRest(days, LIMIT);
    ShownNumber(days[0], lead);
    if |days| == 1 {
      ThresholdsOfOne(days[0], lead + Decimal(days[0]));
      assert days == [days[0]];
    } else {
      ThresholdsOfShown(days[1..], " ");
      ShownParts(days, lead);
      ThresholdsJoin(days, lead + Show(days), lead + Decimal(days[0]), SplitCommas(" " + Show(days[1..])));
    }
  }

  lemma ThresholdsOfOne(n: nat, part: string)
    requires Plain(part) && CleanText(part) == Decimal(n) && |Decimal(n)| <= LIMIT
    ensures ThresholdNumbers(SplitCommas(part)) == Read([n])
  {
    SplitPlain(part);
    ThresholdStep(n, part, []);
    assert [part] + [] == [part] && [n] + [] == [n];
  }

  lemma ThresholdsJoin(days: seq<int>, text: string, part: string, rest: seq<string>)
    requires days != [] && days[0] >= 0 && CleanText(part) == Decimal(days[0])
    requires SplitCommas(text) == [part] + rest && ThresholdNumbers(rest) == Read(days[1..])
    requires |Decimal(days[0])| <= LIMIT
    ensures ThresholdNumbers(SplitCommas(text)) == Read(days)
  {
    ThresholdStep(days[0], part, rest);
    assert days == [days[0]] + days[1..];
  }

  lemma ShownNumber(n: nat, lead: string)
    requires |Decimal(n)| <= LIMIT && (lead == "" || lead == " ")
    ensures Plain(lead + Decimal(n)) && CleanText(lead + Decimal(n)) == Decimal(n)
  {
    BothClean(LIMIT);
    FirstNumber(n, lead, CleanText, LIMIT);
  }

  lemma ThresholdStep(n: nat, part: string, rest: seq<string>)
    requires CleanText(part) == Decimal(n) && |Decimal(n)| <= LIMIT && ThresholdNumbers(rest).Read?
    ensures ThresholdNumbers([part] + rest) == Read([n] + ThresholdNumbers(rest).value)
  {
    DecimalReads(n);
    assert IsDigit(Decimal(n)[0]);
    assert ([part] + rest)[1..] == rest;
  }

  lemma ThresholdsRoundTrip(days: seq<int>)
    requires FitThresholds(days)
    ensures ParseThresholds(Show(days)) == Read(days)
  {
    ShowPlain(days);
    ReplaceAbsent(Show(days), '\n', ',');
    ReplaceAbsent(Show(days), ';', ',');
    assert "" + Show(days) == Show(days);
    ThresholdsOfShown(days, "");
    SortedDescending(days);
  }

  // ---------------------------------------------------------------- the settings form

  datatype SettingsForm = SettingsForm(recipients: string, calendarRecipients: string, webhook: string,
                                       removeWebhook: bool, thresholds: string, notifyWhenExpired: bool,
                                       everyHours: int, renewLead: int, alarmDays: string)

  /** The webhook may be refused, and a number may fail to convert; then nothing is saved. */
  datatype Outcome = Saved(settings: Settings) | WebhookNotAllowed | BadNumber

  const DEFAULT_ALARMS: seq<int> := [7, 1]

  /** Removed, replaced, or kept when the field is left blank. */
  function NextWebhook(stored: string, form: SettingsForm): string {
    if form.removeWebhook then "" else if Strip(form.webhook) != "" then Strip(form.webhook) else stored
  }

  function Submitted(stored: Settings, form: SettingsForm, webhook: string, webhookAllowed: bool, thresholds: seq<int>,
                     alarms: seq<int>): Settings {
    Settings(SettingsAddresses(form.recipients), SettingsAddresses(form.calendarRecipients), webhook, thresholds,
             form.notifyWhenExpired, Clamp(form.everyHours, 0, 24), Clamp(form.renewLead, 0, 3650), alarms,
             stored.emailConfigured, webhookAllowed)
  }

  /** A new webhook is typed that the validator refuses. */
  predicate WebhookRefused(form: SettingsForm, allowed: string -> bool) {
    !form.removeWebhook && Strip(form.webhook) != "" && !allowed(Strip(form.webhook))
  }

  function Submit(stored: Settings, form: SettingsForm, allowed: string -> bool): Outcome {
    var webhook := NextWebhook(stored.teamsWebhook, form);
    var thresholds, alarms := ParseThresholds(form.thresholds), ParseDays(form.alarmDays, DEFAULT_ALARMS);
    if WebhookRefused(form, allowed) then WebhookNotAllowed
    else if thresholds.Unreadable? || alarms.Unreadable? then BadNumber
    else Saved(Submitted(stored, form, webhook, allowed(webhook), thresholds.value, alarms.value))
  }

  /**
   * The settings are saved if and only if a newly typed webhook is allowed, no
   * part of the threshold field is malformed and no part of the reminder field
   * jams.
   */
  lemma SubmitIff(stored: Settings, form: SettingsForm, allowed: string -> bool)
    ensures Submit(stored, form, allowed).Saved?
            <==> !WebhookRefused(form, allowed)
                 && (forall p :: p in SettingsPartsOf(form.thresholds) ==> !Malformed(CleanText(p)))
                 && (forall p :: p in SettingsPartsOf(form.alarmDays) ==> !Jams(CleanText(p)))
  {
    ThresholdsReadIff(form.thresholds);
    NumbersReadIff(SettingsPartsOf(form.alarmDays), CleanText);
  }

  /** Within its bounds as typed, beyond them the nearer bound. */
  ghost predicate Bounded(n: int, typed: int, low: int, high: int) {
    if low <= typed <= high then n == typed else if typed < low then n == low else n == high
  }

  /**
   * What a saved form stores, column by column: the two address lists; the
   * webhook, gone when removed, replaced by the trimmed text when one is typed,
   * kept otherwise; the switch; hours and lead within their bounds; the
   * thresholds and reminders that were typed, or the defaults.
   */
  lemma SavedColumns(stored: Settings, form: SettingsForm, allowed: string -> bool)
    requires Submit(stored, form, allowed).Saved?
    ensures var s := Submit(stored, form, allowed).settings;
            && s.recipients == SettingsAddresses(form.recipients)
            && s.calendarRecipients == SettingsAddresses(form.calendarRecipients)
            && s.teamsWebhook == (if form.removeWebhook then ""
                                  else if Strip(form.webhook) != "" then Strip(form.webhook) else stored.teamsWebhook)
            && s.webhookAllowed == allowed(s.teamsWebhook)
            && (!form.removeWebhook && Strip(form.webhook) != "" ==> allowed(Strip(form.webhook)))
            && s.notifyWhenExpired == form.notifyWhenExpired
            && Bounded(s.expiredTeamsEveryHours, form.everyHours, 0, 24)
            && Bounded(s.renewLeadDays, form.renewLead, 0, 3650)
            && s.emailConfigured == stored.emailConfigured
            && ParseThresholds(form.thresholds) == Read(s.thresholds)
            && ParseDays(form.alarmDays, [7, 1]) == Read(s.alarmDays)
  {
  }

  /** So the webhook ends up empty exactly when it is removed, or was empty and none is typed. */
  lemma WebhookEmptyIff(stored: Settings, form: SettingsForm, allowed: string -> bool)
    requires Submit(stored, form, allowed).Saved?
    ensures Submit(stored, form, allowed).settings.teamsWebhook == ""
            <==> form.removeWebhook || (Strip(form.webhook) == "" && stored.teamsWebhook == "")
  {
    SavedColumns(stored, form, allowed);
  }

  ghost predicate FitAddresses(list: seq<string>) { AllAddresses(list) && forall a :: a in list ==> ';' !in a }

  /** Settings as some form left them. */
  ghost predicate FitSettings(s: Settings) {
    && FitAddresses(s.recipients) && FitAddresses(s.calendarRecipients) && FitThresholds(s.thresholds)
    && 0 <= s.expiredTeamsEveryHours <= 24 && 0 <= s.renewLeadDays <= 3650
    && Stored(s.alarmDays) && s.alarmDays != [] && Short(s.alarmDays)
  }

  /** Whatever a form says, the settings it leaves are fit: hours within the day, thresholds fit to plan by. */
  lemma SubmitFits(stored: Settings, form: SettingsForm, allowed: string -> bool)
    ensures var outcome := Submit(stored, form, allowed);
            outcome.Saved? ==> FitSettings(outcome.settings)
  {
    SettingsAddressesStored(form.recipients);
    SettingsAddressesStored(form.calendarRecipients);
    ThresholdsFit(form.thresholds);
    AlarmsFit(form.alarmDays);
  }

  lemma AlarmsFit(text: string)
    ensures var days := ParseDays(text, DEFAULT_ALARMS);
            days.Read? ==> Stored(days.value) && days.value != [] && Short(days.value)
  {
    assert |Decimal(7)| == 1 && |Decimal(1)| == 1;
    SavedListIsStable(text, DEFAULT_ALARMS);
  }

  /** The settings page as it is shown; the stored webhook is never on it. */
  ghost function ShownSettings(s: Settings): SettingsForm
    requires FitSettings(s)
  {
    SettingsForm(Join(s.recipients), Join(s.calendarRecipients), "", false, Show(s.thresholds), s.notifyWhenExpired,
                 s.expiredTeamsEveryHours, s.renewLeadDays, Show(s.alarmDays))
  }

  /**
   * Saving the settings page as shown keeps everything, the webhook included,
   * if and only if no address is stored with a ragged end; and in any case it
   * re-issues no invite.
   */
  lemma UntouchedSettings(reg: Reg.Registry, allowed: string -> bool)
    requires FitSettings(reg.settings) && reg.settings.webhookAllowed == allowed(reg.settings.teamsWebhook)
    ensures var outcome := Submit(reg.settings, ShownSettings(reg.settings), allowed);
            && outcome.Saved?
            && (outcome.settings == reg.settings
                <==> !AnyRagged(reg.settings.recipients) && !AnyRagged(reg.settings.calendarRecipients))
            && Reg.Apply(reg, Reg.Save(outcome.settings)).mailings == []
  {
    SubmitShown(reg.settings, allowed);
    QuietSave(reg, Submit(reg.settings, ShownSettings(reg.settings), allowed).settings);
  }

  lemma SubmitShown(s: Settings, allowed: string -> bool)
    requires FitSettings(s) && s.webhookAllowed == allowed(s.teamsWebhook)
    ensures var outcome := Submit(s, ShownSettings(s), allowed);
            && outcome.Saved?
            && (outcome.settings == s <==> !AnyRagged(s.recipients) && !AnyRagged(s.calendarRecipients))
            && outcome.settings.renewLeadDays == s.renewLeadDays && outcome.settings.alarmDays == s.alarmDays
  {
    SettingsAddressesBack(s.recipients);
    SettingsAddressesBack(s.calendarRecipients);
    ThresholdsRoundTrip(s.thresholds);
    SettingsRoundTrip(s.alarmDays, DEFAULT_ALARMS);
    assert Strip("") == "";
  }

  lemma QuietSave(reg: Reg.Registry, next: Settings)
    requires reg.settings.renewLeadDays == next.renewLeadDays && reg.settings.alarmDays == next.alarmDays
    ensures Reg.Apply(reg, Reg.Save(next)).mailings == []
  {
  }
}
