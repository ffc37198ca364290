/** Lists of days as they are shown in a form field and read back from it. */
module DayLists {
  import opened Common
  import opened Model
  import opened Text
  import Calendar

  // ---------------------------------------------------------------- reading

  function Replace(s: string, target: char, with: char): string {
    if s == "" then "" else [if s[0] == target then with else s[0]] + Replace(s[1..], target, with)
  }

  /** `split(",")`: one part more than there are commas. */
  function SplitCommas(s: string): (parts: seq<string>)
    ensures parts != []
  {
    if s == "" then [""]
    else
      var rest := SplitCommas(s[1..]);
      if s[0] == ',' then [""] + rest else [[s[0]] + rest[0]] + rest[1..]
  }

  /** The numbers among the cleaned parts, in order; nothing at all once one of them cannot be converted. */
  function Numbers(parts: seq<string>, clean: string -> string): Reading<seq<int>> {
    if parts == [] then Read([])
    else
      var part, rest := clean(parts[0]), Numbers(parts[1..], clean);
      if !LooksNumeric(part) then rest
      else if !Converts(part) || rest.Unreadable? then Unreadable
      else Read([Value(part)] + rest.value)
  }

  /** The parts of a field of the certificate's page. */
  function PartsOf(value: string): seq<string> { SplitCommas(Replace(value, '\n', ',')) }

  /** The parts of a field of the settings page, where semicolons count as commas. */
  function SettingsPartsOf(value: string): seq<string> { SplitCommas(Replace(Replace(value, '\n', ','), ';', ',')) }

  /** The settings page, where each part is cleaned and cut to 200 characters. */
  function ParseDays(value: string, default: seq<int>): Reading<seq<int>> {
    var numbers := Numbers(SettingsPartsOf(value), CleanText);
    if numbers.Unreadable? then Unreadable
    else
      var days := Calendar.Descending(numbers.value);
      Read(if days == [] then default else days)
  }

  /** The certificate page, where no list at all leaves the record without one of its own. */
  function DayList(value: string): Reading<Option<seq<int>>> {
    var numbers := Numbers(PartsOf(value), Strip);
    if numbers.Unreadable? then Unreadable
    else
      var days := Calendar.Descending(numbers.value);
      Read(if days == [] then None else Some(days))
  }

  /** Reading fails if and only if one of the parts jams. */
  lemma {:induction false} NumbersReadIff(parts: seq<string>, clean: string -> string)
    ensures Numbers(parts, clean).Unreadable? <==> exists p :: p in parts && Jams(clean(p))
  {
    if parts != [] {
      NumbersReadIff(parts[1..], clean);
      assert forall p :: p in parts <==> p == parts[0] || p in parts[1..];
    }
  }

  // ---------------------------------------------------------------- showing

  function Show(days: seq<int>): string
    requires forall d :: d in days ==> d >= 0
  {
    if days == [] then ""
    else
      assert days[0] in days;
      assert forall d :: d in days[1..] ==> d in days;
      if |days| == 1 then Decimal(days[0]) else Decimal(days[0]) + ", " + Show(days[1..])
  }

  /** What both forms store: positive, strictly descending. */
  ghost predicate Stored(days: seq<int>) {
    && (forall d :: d in days ==> d > 0)
    && (forall i, j :: 0 <= i < j < |days| ==> days[i] > days[j])
  }

  ghost predicate Short(days: seq<int>) { Within(days, LIMIT) }

  /** No number among these has more digits than that. */
  ghost predicate Within(days: seq<int>, limit: nat) { forall d: nat :: d in days ==> |Decimal(d)| <= limit }

  // ---------------------------------------------------------------- round trip

  ghost predicate Plain(s: string) { forall i :: 0 <= i < |s| ==> s[i] != ',' }

  lemma {:induction false} SplitAtComma(a: string, b: string)
    requires Plain(a)
    ensures SplitCommas(a + "," + b) == [a] + SplitCommas(b)
  {
    if a == "" {
      assert ("" + "," + b)[1..] == b;
    } else {
      assert (a + "," + b)[1..] == a[1..] + "," + b;
      SplitAtComma(a[1..], b);
      assert [a[0]] + a[1..] == a;
    }
  }

  lemma {:induction false} SplitPlain(a: string)
    requires Plain(a)
    ensures SplitCommas(a) == [a]
  {
    if a != "" {
      SplitPlain(a[1..]);
      assert [a[0]] + a[1..] == a;
    }
  }

  lemma {:induction false} ReplaceAbsent(s: string, target: char, with: char)
    requires forall i :: 0 <= i < |s| ==> s[i] != target
    ensures Replace(s, target, with) == s
  {
    if s != "" {
      ReplaceAbsent(s[1..], target, with);
      assert [s[0]] + s[1..] == s;
    }
  }

  lemma {:induction false} ShowPlain(days: seq<int>)
    requires forall d :: d in days ==> d >= 0
    ensures forall i :: 0 <= i < |Show(days)| ==> Show(days)[i] != '\n' && Show(days)[i] != ';'
  {
    if |days| > 1 {
      assert forall d :: d in days[1..] ==> d in days;
      ShowPlain(days[1..]);
    }
  }

  /** Both ways of cleaning leave a numeral alone and take the space before it away. */
  ghost predicate Cleans(clean: string -> string, limit: nat) {
    forall s: string :: IsNumber(s) && |s| <= limit ==> clean(s) == s && clean(" " + s) == s
  }

  lemma StripDigits(s: string)
    requires IsNumber(s)
    ensures Strip(s) == s && Strip(" " + s) == s
  {
    assert IsDigit(s[0]) && IsDigit(s[|s| - 1]);
    assert (" " + s)[1..] == s;
  }

  lemma {:induction false} ControlDigits(s: string)
    requires AllDigits(s)
    ensures WithoutControl(s) == s
  {
    if s != "" {
      assert IsDigit(s[0]);
      ControlDigits(s[1..]);
      assert [s[0]] + s[1..] == s;
    }
  }

  lemma BothClean(limit: nat)
    ensures Cleans(Strip, limit)
    ensures Cleans(CleanText, LIMIT)
  {
    forall s: string | IsNumber(s) ensures Strip(s) == s && Strip(" " + s) == s { StripDigits(s); }
    forall s: string | IsNumber(s) && |s| <= LIMIT ensures CleanText(s) == s && CleanText(" " + s) == s {
      StripDigits(s);
      ControlDigits(s);
      assert (" " + s)[1..] == s;
      assert WithoutControl(" " + s) == " " + s;
    }
  }

  lemma HeadAndRest(days: seq<int>, limit: nat)
    requires days != [] && (forall d :: d in days ==> d >= 0) && Within(days, limit)
    ensures days[0] >= 0 && |Decimal(days[0])| <= limit
    ensures (forall d :: d in days[1..] ==> d >= 0) && Within(days[1..], limit)
  {
    assert days[0] in days;
    assert forall d :: d in days[1..] ==> d in days;
  }

  /** Reading a shown list part by part gives its numbers, with or without a leading space. */
  lemma {:induction false} NumbersOfShown(days: seq<int>, lead: string, clean: string -> string, limit: nat)
    requires days != [] && (forall d :: d in days ==> d >= 0) && Within(days, limit) && limit <= MAX_DIGITS
    requires (lead == "" || lead == " ") && Cleans(clean, limit)
    ensures Numbers(SplitCommas(lead + Show(days)), clean) == Read(days)
  {
    HeadAndRest(days, limit);
    FirstNumber(days[0], lead, clean, limit);
    if |days| == 1 {
      SplitPlain(lead + Decimal(days[0]));
      OneNumber(days[0], lead + Decimal(days[0]), clean);
      assert days == [days[0]];
    } else {
      NumbersOfShown(days[1..], " ", clean, limit);
      ShownParts(days, lead);
      NumbersJoin(days, lead + Show(days), lead + Decimal(days[0]), SplitCommas(" " + Show(days[1..])), clean);
    }
  }

  lemma NumbersJoin(days: seq<int>, text: string, part: string, rest: seq<string>, clean: string -> string)
    requires days != [] && days[0] >= 0 && clean(part) == Decimal(days[0]) && |Decimal(days[0])| <= MAX_DIGITS
    requires SplitCommas(text) == [part] + rest && Numbers(rest, clean) == Read(days[1..])
    ensures Numbers(SplitCommas(text), clean) == Read(days)
  {
    NumbersStep(days[0], part, rest, clean);
    assert days == [days[0]] + days[1..];
  }

  lemma ShownParts(days: seq<int>, lead: string)
    requires |days| > 1 && (forall d :: d in days ==> d >= 0) && Plain(lead)
    ensures days[0] >= 0 && (forall d :: d in days[1..] ==> d >= 0)
    ensures SplitCommas(lead + Show(days)) == [lead + Decimal(days[0])] + SplitCommas(" " + Show(days[1..]))
  {
    assert days[0] in days;
    assert forall d :: d in days[1..] ==> d in days;
    var text := Decimal(days[0]);
    assert forall i :: 0 <= i < |text| ==> IsDigit(text[i]);
    Regroup(lead, text, Show(days[1..]));
    SplitAtComma(lead + text, " " + Show(days[1..]));
  }

  lemma Regroup(a: string, b: string, c: string)
    ensures a + (b + ", " + c) == (a + b) + "," + (" " + c)
  {
  }

  lemma FirstNumber(n: nat, lead: string, clean: string -> string, limit: nat)
    requires (lead == "" || lead == " ") && Cleans(clean, limit) && |Decimal(n)| <= limit
    ensures Plain(lead + Decimal(n)) && clean(lead + Decimal(n)) == Decimal(n)
  {
    var text := Decimal(n);
    assert forall i :: 0 <= i < |text| ==> IsDigit(text[i]);
    assert "" + text == text;
    assert IsNumber(text);
  }

  lemma OneNumber(n: nat, part: string, clean: string -> string)
    requires clean(part) == Decimal(n) && |Decimal(n)| <= MAX_DIGITS
    ensures Numbers([part], clean) == Read([n])
  {
    DecimalReads(n);
    assert Numbers([part][1..], clean) == Read([]);
    assert [n] + [] == [n];
  }

  lemma NumbersStep(n: nat, part: string, rest: seq<string>, clean: string -> string)
    requires clean(part) == Decimal(n) && |Decimal(n)| <= MAX_DIGITS && Numbers(rest, clean).Read?
    ensures Numbers([part] + rest, clean) == Read([n] + Numbers(rest, clean).value)
  {
    DecimalReads(n);
    assert ([part] + rest)[1..] == rest;
  }

  lemma {:induction false} FilterAll(days: seq<int>)
    requires forall d :: d in days ==> d > 0
    ensures Filter(days, d => d > 0) == days
  {
    if days != [] {
      assert days[0] in days;
      assert forall d :: d in days[1..] ==> d in days;
      FilterAll(days[1..]);
      assert Filter(days, d => d > 0) == [days[0]] + Filter(days[1..], d => d > 0);
    }
  }

  lemma ReverseAscends(days: seq<int>)
    requires forall i, j :: 0 <= i < j < |days| ==> days[i] > days[j]
    ensures StrictlyAscending(Reverse(days))
  {
    ReverseAt(days);
  }

  lemma SortedDescending(days: seq<int>)
    requires forall i, j :: 0 <= i < j < |days| ==> days[i] > days[j]
    ensures Reverse(SortedSet(days)) == days
  {
    ReverseAscends(days);
    ReverseMembers(days);
    SortedSetUnique(SortedSet(days), Reverse(days));
    ReverseTwice(days);
  }

  lemma DescendingStored(days: seq<int>)
    requires Stored(days)
    ensures Calendar.Descending(days) == days
  {
    FilterAll(days);
    SortedDescending(days);
  }

  /** The settings page shows a stored list so that saving it unchanged reads the same list. */
  lemma SettingsRoundTrip(days: seq<int>, default: seq<int>)
    requires Stored(days) && days != [] && Short(days)
    ensures ParseDays(Show(days), default) == Read(days)
  {
    ShowPlain(days);
    ReplaceAbsent(Show(days), '\n', ',');
    ReplaceAbsent(Show(days), ';', ',');
    BothClean(LIMIT);
    assert "" + Show(days) == Show(days);
    NumbersOfShown(days, "", CleanText, LIMIT);
    DescendingStored(days);
  }

  function ShowOverride(days: Option<seq<int>>): string
    requires days.Some? ==> forall d :: d in days.value ==> d >= 0
  {
    if days.None? then "" else Show(days.value)
  }

  /** An override as the form stores it, or none. */
  ghost predicate FitDays(days: Option<seq<int>>) {
    days.Some? ==> Stored(days.value) && days.value != [] && Within(days.value, MAX_DIGITS)
  }

  /** The certificate page likewise, for any stored override and for none at all. */
  lemma OverrideRoundTrip(days: Option<seq<int>>)
    requires FitDays(days)
    ensures DayList(ShowOverride(days)) == Read(days)
  {
    if days.None? {
      assert SplitCommas("") == [""];
      assert Numbers([""], Strip) == Read([]) by { assert Numbers([""][1..], Strip) == Read([]); }
    } else {
      ShowPlain(days.value);
      ReplaceAbsent(Show(days.value), '\n', ',');
      BothClean(MAX_DIGITS);
      assert "" + Show(days.value) == Show(days.value);
      NumbersOfShown(days.value, "", Strip, MAX_DIGITS);
      DescendingStored(days.value);
    }
  }

  // ---------------------------------------------------------------- anything that was typed

  lemma {:induction false} ValueBound(s: string)
    requires AllDigits(s)
    ensures Value(s) < Pow10(|s|)
  {
    if s != "" { ValueBound(s[..|s| - 1]); }
  }

  lemma {:induction false} DecimalLength(n: nat, width: nat)
    requires width >= 1 && n < Pow10(width)
    ensures |Decimal(n)| <= width
  {
    assert Pow10(0) == 1 && Pow10(1) == 10;
    if n >= 10 {
      DecimalLength(n / 10, width - 1);
    }
  }

  /** A numeral's value has no more digits than the numeral. */
  lemma ValueShort(s: string)
    requires IsNumber(s)
    ensures |Decimal(Value(s))| <= |s|
  {
    ValueBound(s);
    DecimalLength(Value(s), |s|);
  }

  lemma {:induction false} NumbersShort(parts: seq<string>, clean: string -> string, limit: nat)
    requires forall p :: p in parts && Converts(clean(p)) ==> |clean(p)| <= limit
    ensures var r := Numbers(parts, clean); r.Read? ==> Within(r.value, limit)
  {
    if parts != [] {
      assert parts[0] in parts && forall p :: p in parts[1..] ==> p in parts;
      NumbersShort(parts[1..], clean, limit);
      var part := clean(parts[0]);
      if Converts(part) { ValueShort(part); }
    }
  }

  lemma DescendingWithin(numbers: seq<int>, limit: nat)
    requires Within(numbers, limit)
    ensures Stored(Calendar.Descending(numbers)) && Within(Calendar.Descending(numbers), limit)
  {
    Calendar.DescendingIs(numbers);
  }

  /** Whatever text is saved, if it can be read, showing the result and saving that changes nothing. */
  lemma SavedListIsStable(text: string, default: seq<int>)
    requires Stored(default) && Short(default) && default != []
    ensures var days := ParseDays(text, default);
            days.Read? ==> Stored(days.value) && days.value != [] && Short(days.value)
                           && ParseDays(Show(days.value), default) == days
  {
    var numbers := Numbers(SettingsPartsOf(text), CleanText);
    NumbersShort(SettingsPartsOf(text), CleanText, LIMIT);
    if numbers.Read? {
      DescendingWithin(numbers.value, LIMIT);
      SettingsRoundTrip(ParseDays(text, default).value, default);
    }
  }

  lemma ReadDaysFit(text: string)
    ensures DayList(text).Read? ==> FitDays(DayList(text).value)
  {
    var numbers := Numbers(PartsOf(text), Strip);
    NumbersShort(PartsOf(text), Strip, MAX_DIGITS);
    if numbers.Read? { DescendingWithin(numbers.value, MAX_DIGITS); }
  }

  // ---------------------------------------------------------------- what a field is read as

  lemma {:induction false} ReplaceConcat(a: string, b: string, target: char, with: char)
    ensures Replace(a + b, target, with) == Replace(a, target, with) + Replace(b, target, with)
  {
    if a == "" { assert a + b == b; } else {
      assert (a + b)[1..] == a[1..] + b;
      ReplaceConcat(a[1..], b, target, with);
    }
  }

  lemma ReplaceOne(c: char, target: char, with: char)
    ensures Replace([c], target, with) == [if c == target then with else c]
  {
    assert [c][1..] == "";
  }

  lemma Lacks(s: string, c: char)
    requires c !in s
    ensures forall i :: 0 <= i < |s| ==> s[i] != c
  {
    assert forall i :: 0 <= i < |s| ==> s[i] in s;
  }

  /** On the certificate's page commas and line ends separate, and nothing else does. */
  lemma PartsAre(a: string, separator: char, b: string)
    requires ',' !in a && '\n' !in a && separator in {',', '\n'}
    ensures PartsOf(a) == [a] && PartsOf(a + [separator] + b) == [a] + PartsOf(b)
  {
    Lacks(a, ',');
    Lacks(a, '\n');
    ReplaceAbsent(a, '\n', ',');
    SplitPlain(a);
    ReplaceConcat(a + [separator], b, '\n', ',');
    ReplaceConcat(a, [separator], '\n', ',');
    ReplaceOne(separator, '\n', ',');
    assert a + [','] == a + ",";
    SplitAtComma(a, Replace(b, '\n', ','));
  }

  /** On the settings page semicolons do too. */
  lemma SettingsPartsAre(a: string, separator: char, b: string)
    requires ',' !in a && ';' !in a && '\n' !in a && separator in {',', ';', '\n'}
    ensures SettingsPartsOf(a) == [a] && SettingsPartsOf(a + [separator] + b) == [a] + SettingsPartsOf(b)
  {
    Lacks(a, ',');
    Lacks(a, ';');
    Lacks(a, '\n');
    ReplaceAbsent(a, '\n', ',');
    ReplaceAbsent(a, ';', ',');
    SplitPlain(a);
    ReplaceConcat(a + [separator], b, '\n', ',');
    ReplaceConcat(a, [separator], '\n', ',');
    ReplaceOne(separator, '\n', ',');
    var c := if separator == '\n' then ',' else separator;
    var rest := Replace(b, '\n', ',');
    ReplaceConcat(a + [c], rest, ';', ',');
    ReplaceConcat(a, [c], ';', ',');
    ReplaceOne(c, ';', ',');
    assert a + [','] == a + ",";
    SplitAtComma(a, Replace(rest, ';', ','));
  }

  /** Some part of the field is this number. */
  ghost predicate Typed(parts: seq<string>, clean: string -> string, n: int) {
    exists p :: p in parts && IsNumber(clean(p)) && Value(clean(p)) == n
  }

  lemma {:induction false} NumbersAre(parts: seq<string>, clean: string -> string)
    requires Numbers(parts, clean).Read?
    ensures forall n :: n in Numbers(parts, clean).value <==> Typed(parts, clean, n)
  {
    if parts != [] {
      var part := clean(parts[0]);
      NumbersAre(parts[1..], clean);
      assert forall p :: p in parts <==> p == parts[0] || p in parts[1..];
      assert IsNumber(part) ==> LooksNumeric(part);
      forall n ensures Typed(parts, clean, n) <==> (IsNumber(part) && Value(part) == n) || Typed(parts[1..], clean, n) {
      }
    }
  }

  /** These are the positive numbers typed, each once, largest first. */
  ghost predicate PositivesOf(days: seq<int>, parts: seq<string>, clean: string -> string) {
    && (forall n :: n in days <==> n > 0 && Typed(parts, clean, n))
    && (forall i, j :: 0 <= i < j < |days| ==> days[i] > days[j])
  }

  lemma DescendingPositives(numbers: seq<int>, parts: seq<string>, clean: string -> string)
    requires forall n :: n in numbers <==> Typed(parts, clean, n)
    ensures PositivesOf(Calendar.Descending(numbers), parts, clean)
    ensures Calendar.Descending(numbers) != [] <==> exists n :: n > 0 && Typed(parts, clean, n)
  {
    var days := Calendar.Descending(numbers);
    Calendar.DescendingIs(numbers);
    if days != [] { assert days[0] in days; }
  }

  /** A readable reminder field of the settings is the positive numbers in it, or the default if there are none. */
  lemma ParseDaysIs(text: string, default: seq<int>)
    requires ParseDays(text, default).Read?
    ensures var days, parts := ParseDays(text, default).value, SettingsPartsOf(text);
            if exists n :: n > 0 && Typed(parts, CleanText, n) then PositivesOf(days, parts, CleanText)
            else days == default
  {
    var parts := SettingsPartsOf(text);
    NumbersAre(parts, CleanText);
    DescendingPositives(Numbers(parts, CleanText).value, parts, CleanText);
  }

  /** A readable day list of a record is the positive numbers in it, or none if there are none. */
  lemma DayListIs(text: string)
    requires DayList(text).Read?
    ensures var days, parts := DayList(text).value, PartsOf(text);
            if exists n :: n > 0 && Typed(parts, Strip, n) then days.Some? && PositivesOf(days.value, parts, Strip)
            else days.None?
  {
    var parts := PartsOf(text);
    NumbersAre(parts, Strip);
    DescendingPositives(Numbers(parts, Strip).value, parts, Strip);
  }
}
