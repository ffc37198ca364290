/** The sliding-window limiter and what it promises over whole histories of requests. */
module RateLimits {
  import opened Common
  import opened Text

  datatype Rate = Rate(limit: nat, window: nat)

  // ---------------------------------------------------------------- reading a rate

  function SecondsIn(unit: string): Option<nat> {
    if unit == "second" then Some(1)
    else if unit == "minute" then Some(60)
    else if unit == "hour" then Some(3600)
    else if unit == "day" then Some(86400)
    else None
  }

  /** The text before and after the first slash; without one, all of it comes before. */
  function Partition(spec: string): (string, string) {
    if spec == "" then ("", "")
    else if spec[0] == '/' then ("", spec[1..])
    else var (count, unit) := Partition(spec[1..]); ([spec[0]] + count, unit)
  }

  /** `20/hour`; nothing for any other shape. */
  function ParseRate(spec: string): Option<Rate> {
    var (count, unit) := Partition(spec);
    var seconds := SecondsIn(Strip(unit));
    if Converts(Strip(count)) && seconds.Some? then Some(Rate(Value(Strip(count)), seconds.value)) else None
  }

  /** The units are these four. */
  lemma UnitsLook(count: nat)
    requires |Decimal(count)| <= 4300
    ensures ParseRate(Decimal(count) + "/" + "second") == Some(Rate(count, 1))
    ensures ParseRate(Decimal(count) + "/" + "minute") == Some(Rate(count, 60))
    ensures ParseRate(Decimal(count) + "/" + "hour") == Some(Rate(count, 3600))
    ensures ParseRate(Decimal(count) + "/" + "day") == Some(Rate(count, 86400))
  {
    RateReads(count, "second");
    RateReads(count, "minute");
    RateReads(count, "hour");
    RateReads(count, "day");
  }

  /** Nothing else is a rate: a numeral, a slash and one of the units, with blanks around either. */
  lemma RateReadsIff(count: string, unit: string)
    requires '/' !in count
    ensures ParseRate(count + "/" + unit).Some?
            <==> IsNumber(Strip(count)) && |Strip(count)| <= 4300 && Strip(unit) in ["second", "minute", "hour", "day"]
    ensures ParseRate(count).None?
  {
    PartitionAt(count, unit);
    NoSlash(count);
  }

  lemma {:induction false} NoSlash(spec: string)
    requires '/' !in spec
    ensures Partition(spec) == (spec, "")
  {
    if spec != "" {
      assert spec[0] in spec && forall c :: c in spec[1..] ==> c in spec;
      NoSlash(spec[1..]);
      assert [spec[0]] + spec[1..] == spec;
    }
  }

  lemma {:induction false} PartitionAt(count: string, unit: string)
    requires '/' !in count
    ensures Partition(count + "/" + unit) == (count, unit)
  {
    if count == "" {
      assert ("/" + unit)[1..] == unit && "" + "/" + unit == "/" + unit;
    } else {
      assert (count + "/" + unit)[1..] == count[1..] + "/" + unit;
      assert forall c :: c in count[1..] ==> c in count;
      PartitionAt(count[1..], unit);
      assert count[0] in count && [count[0]] + count[1..] == count;
    }
  }

  /** A printed limit is read back, a limit of zero included, unless it has too many digits to convert. */
  lemma RateReads(limit: nat, unit: string)
    requires SecondsIn(unit).Some?
    ensures ParseRate(Decimal(limit) + "/" + unit)
            == if |Decimal(limit)| <= MAX_DIGITS then Some(Rate(limit, SecondsIn(unit).value)) else None
  {
    var count := Decimal(limit);
    assert forall i :: 0 <= i < |count| ==> IsDigit(count[i]);
    PartitionAt(count, unit);
    DecimalReads(limit);
    assert Strip(count) == count;
    UnitsAreTrimmed(unit);
  }

  lemma UnitsAreTrimmed(unit: string)
    requires SecondsIn(unit).Some?
    ensures Strip(unit) == unit
  {
    assert !IsBlank(unit[0]) && !IsBlank(unit[|unit| - 1]);
  }

  // ---------------------------------------------------------------- one request

  /** `Broken` is the lookup of an oldest hit when there is none. */
  datatype Verdict = Allowed | Refused(retryAfter: int) | Broken

  type Key = (string, string)

  function Window(rate: Rate): real { rate.window as real }

  /** The hits left once everything before the cutoff has been dropped from the front. */
  function Kept(hits: seq<real>, cutoff: real): seq<real> {
    if hits != [] && hits[0] < cutoff then Kept(hits[1..], cutoff) else hits
  }

  function RetryAfter(oldest: real, rate: Rate, now: real): int {
    var left := (oldest + Window(rate) - now).Floor;
    if left < 1 then 1 else left
  }

  /** One request against one key's hits. */
  function Decide(hits: seq<real>, rate: Rate, now: real): (seq<real>, Verdict) {
    var kept := Kept(hits, now - Window(rate));
    if |kept| < rate.limit then (kept + [now], Allowed)
    else if kept == [] then (kept, Broken)
    else (kept, Refused(RetryAfter(kept[0], rate, now)))
  }

  function HitsFor(hits: map<Key, seq<real>>, key: Key): seq<real> { if key in hits then hits[key] else [] }

  class RateLimiter {
    var hits: map<Key, seq<real>>

    constructor ()
      ensures hits == map[]
    {
      hits := map[];
    }

    /** One request of one key is let through or turned away; other keys' hits stay as they are. */
    method Check(bucket: string, identity: string, rate: Rate, now: real) returns (verdict: Verdict)
      modifies this
      ensures var key := (bucket, identity);
              var before := if key in old(hits) then old(hits)[key] else [];
              hits == old(hits)[key := Decide(before, rate, now).0] && verdict == Decide(before, rate, now).1
    {
      var key := (bucket, identity);
      var mine := HitsFor(hits, key);
      ghost var kept := Kept(mine, now - Window(rate));
      var cutoff := now - Window(rate);
      while mine != [] && mine[0] < cutoff
        invariant Kept(mine, cutoff) == kept
        decreases |mine|
      {
        mine := mine[1..];
      }
      if |mine| >= rate.limit {
        hits := hits[key := mine];
        if mine == [] {
          return Broken;
        }
        return Refused(RetryAfter(mine[0], rate, now));
      }
      hits := hits[key := mine + [now]];
      return Allowed;
    }
  }

  // ---------------------------------------------------------------- histories

  ghost predicate Ascending(times: seq<real>) {
    forall i, j :: 0 <= i < j < |times| ==> times[i] <= times[j]
  }

  /** One key's hits after these requests. */
  function HitsAfter(times: seq<real>, rate: Rate): seq<real> {
    if times == [] then [] else Decide(HitsAfter(times[..|times| - 1], rate), rate, times[|times| - 1]).0
  }

  function VerdictOf(times: seq<real>, rate: Rate, now: real): Verdict { Decide(HitsAfter(times, rate), rate, now).1 }

  /** The requests that were allowed. */
  function AllowedOf(times: seq<real>, rate: Rate): seq<real> {
    if times == [] then []
    else
      var before, now := times[..|times| - 1], times[|times| - 1];
      AllowedOf(before, rate) + (if VerdictOf(before, rate, now) == Allowed then [now] else [])
  }

  function CountWithin(times: seq<real>, from: real, upto: real): nat {
    if times == [] then 0
    else CountWithin(times[..|times| - 1], from, upto) + (if from <= times[|times| - 1] <= upto then 1 else 0)
  }

  lemma {:induction false} CountSplit(a: seq<real>, b: seq<real>, from: real, upto: real)
    ensures CountWithin(a + b, from, upto) == CountWithin(a, from, upto) + CountWithin(b, from, upto)
  {
    if b == [] { assert a + b == a; }
    else {
      CountSplit(a, b[..|b| - 1], from, upto);
      assert (a + b)[..|a + b| - 1] == a + b[..|b| - 1];
    }
  }

  lemma {:induction false} CountNone(times: seq<real>, from: real, upto: real)
    requires forall i :: 0 <= i < |times| ==> times[i] < from
    ensures CountWithin(times, from, upto) == 0
  {
    if times != [] { CountNone(times[..|times| - 1], from, upto); }
  }

  lemma {:induction false} CountAll(times: seq<real>, from: real, upto: real)
    ensures CountWithin(times, from, upto) <= |times|
    ensures (forall i :: 0 <= i < |times| ==> from <= times[i] <= upto) ==> CountWithin(times, from, upto) == |times|
  {
    if times != [] { CountAll(times[..|times| - 1], from, upto); }
  }

  /** Dropping from the front removes exactly the hits before the cutoff. */
  lemma {:induction false} KeptSplit(hits: seq<real>, cutoff: real) returns (k: nat)
    requires Ascending(hits)
    ensures k <= |hits| && Kept(hits, cutoff) == hits[k..]
    ensures forall i :: 0 <= i < k ==> hits[i] < cutoff
    ensures forall i :: k <= i < |hits| ==> cutoff <= hits[i]
  {
    if hits != [] && hits[0] < cutoff {
      var j := KeptSplit(hits[1..], cutoff);
      k := j + 1;
    } else {
      k := 0;
    }
  }

  /** `hits` is what is left of the allowed requests: those from `k` on, all of them in the window ending at `now`. */
  ghost predicate WindowOf(hits: seq<real>, allowed: seq<real>, k: nat, rate: Rate, now: real) {
    && k <= |allowed| && hits == allowed[k..] && |hits| <= rate.limit && Ascending(allowed)
    && (forall i :: 0 <= i < |allowed| ==> allowed[i] <= now)
    && (forall i :: 0 <= i < k ==> allowed[i] < now - Window(rate))
  }

  lemma KeptWindow(hits: seq<real>, allowed: seq<real>, j: nat, rate: Rate, before: real, now: real) returns (k: nat)
    requires WindowOf(hits, allowed, j, rate, before) && before <= now
    ensures WindowOf(Kept(hits, now - Window(rate)), allowed, k, rate, now)
    ensures forall i :: k <= i < |allowed| ==> now - Window(rate) <= allowed[i]
  {
    var d := KeptSplit(hits, now - Window(rate));
    k := j + d;
    assert forall i :: j <= i < |allowed| ==> allowed[i] == hits[i - j];
  }

  lemma DecideWindow(hits: seq<real>, allowed: seq<real>, j: nat, rate: Rate, before: real, now: real) returns (k: nat)
    requires WindowOf(hits, allowed, j, rate, before) && before <= now && rate.limit >= 1
    ensures var (hits', verdict) := Decide(hits, rate, now);
            WindowOf(hits', allowed + (if verdict == Allowed then [now] else []), k, rate, now)
  {
    k := KeptWindow(hits, allowed, j, rate, before, now);
    var (hits', verdict) := Decide(hits, rate, now);
    if verdict == Allowed {
      assert (allowed + [now])[k..] == allowed[k..] + [now];
    } else {
      assert allowed + [] == allowed;
    }
  }

  /** The stored hits are the allowed requests that still matter, oldest first. */
  lemma {:induction false} HitsAreRecent(times: seq<real>, rate: Rate, last: real) returns (k: nat)
    requires Ascending(times) && rate.limit >= 1
    requires if times == [] then true else last == times[|times| - 1]
    ensures WindowOf(HitsAfter(times, rate), AllowedOf(times, rate), k, rate, last)
  {
    k := 0;
    if times != [] {
      var n := |times| - 1;
      var j := HitsAreRecent(times[..n], rate, if n == 0 then last else times[n - 1]);
      k := DecideWindow(HitsAfter(times[..n], rate), AllowedOf(times[..n], rate), j, rate,
          if n == 0 then last else times[n - 1], last);
    }
  }

  /** The `limit`-th allowed request after any other comes more than a window later. */
  lemma {:induction false} Spacing(times: seq<real>, rate: Rate, i: nat)
    requires Ascending(times) && rate.limit >= 1 && i + rate.limit < |AllowedOf(times, rate)|
    ensures AllowedOf(times, rate)[i] < AllowedOf(times, rate)[i + rate.limit] - Window(rate)
  {
    var n := |times| - 1;
    var before, now := times[..n], times[n];
    var was := AllowedOf(before, rate);
    if i + rate.limit < |was| {
      Spacing(before, rate, i);
    } else {
      var k := HitsAreRecent(times, rate, now);
      assert |AllowedOf(times, rate)| == |was| + 1;
      assert |HitsAfter(times, rate)| == |was| + 1 - k;
    }
  }

  lemma Ordered(times: seq<real>, rate: Rate)
    requires Ascending(times) && rate.limit >= 1
    ensures Ascending(AllowedOf(times, rate))
  {
    var k := HitsAreRecent(times, rate, if times == [] then 0.0 else times[|times| - 1]);
  }

  lemma {:induction false} SpacedCount(allowed: seq<real>, limit: nat, window: real, from: real)
    requires Ascending(allowed) && limit >= 1
    requires forall i :: 0 <= i && i + limit < |allowed| ==> allowed[i] < allowed[i + limit] - window
    ensures CountWithin(allowed, from, from + window) <= limit
  {
    if allowed != [] {
      var n := |allowed| - 1;
      if from <= allowed[n] <= from + window {
        var cut := if n + 1 > limit then n + 1 - limit else 0;
        if cut > 0 { assert allowed[cut - 1] < allowed[cut - 1 + limit] - window; }
        CountTail(allowed, cut, from, from + window);
      } else {
        assert forall i :: 0 <= i && i + limit < n ==> allowed[i] < allowed[i + limit] - window;
        SpacedCount(allowed[..n], limit, window, from);
      }
    }
  }

  lemma CountTail(times: seq<real>, cut: nat, from: real, upto: real)
    requires cut <= |times| && forall i :: 0 <= i < cut ==> times[i] < from
    ensures CountWithin(times, from, upto) <= |times| - cut
    ensures (forall i :: cut <= i < |times| ==> from <= times[i] <= upto) ==>
        CountWithin(times, from, upto) == |times| - cut
  {
    assert times == times[..cut] + times[cut..];
    CountSplit(times[..cut], times[cut..], from, upto);
    CountNone(times[..cut], from, upto);
    CountAll(times[cut..], from, upto);
  }

  /** Every closed interval as long as the window holds at most `limit` allowed requests of one key. */
  lemma WindowBound(times: seq<real>, rate: Rate, from: real)
    requires Ascending(times) && rate.limit >= 1
    ensures CountWithin(AllowedOf(times, rate), from, from + rate.window as real) <= rate.limit
  {
    Ordered(times, rate);
    forall i | 0 <= i && i + rate.limit < |AllowedOf(times, rate)|
      ensures AllowedOf(times, rate)[i] < AllowedOf(times, rate)[i + rate.limit] - Window(rate)
    {
      Spacing(times, rate, i);
    }
    SpacedCount(AllowedOf(times, rate), rate.limit, Window(rate), from);
  }

  /** A request is refused exactly when `limit` requests were allowed in the window that ends with it. */
  lemma RefusedIff(times: seq<real>, rate: Rate, now: real)
    requires Ascending(times + [now]) && rate.limit >= 1
    ensures VerdictOf(times, rate, now).Refused?
            <==> CountWithin(AllowedOf(times, rate), now - Window(rate), now) == rate.limit
    ensures VerdictOf(times, rate, now) != Broken
  {
    LastBefore(times, now);
    var last := if times == [] then now else times[|times| - 1];
    var j := HitsAreRecent(times, rate, last);
    DecideRefuses(HitsAfter(times, rate), AllowedOf(times, rate), j, rate, last, now);
  }

  lemma DecideRefuses(hits: seq<real>, allowed: seq<real>, j: nat, rate: Rate, before: real, now: real)
    requires WindowOf(hits, allowed, j, rate, before) && before <= now && rate.limit >= 1
    ensures Decide(hits, rate, now).1.Refused? <==> CountWithin(allowed, now - Window(rate), now) == rate.limit
    ensures Decide(hits, rate, now).1 != Broken
  {
    var k := KeptWindow(hits, allowed, j, rate, before, now);
    CountTail(allowed, k, now - Window(rate), now);
  }

  lemma LastBefore(times: seq<real>, now: real)
    requires Ascending(times + [now])
    ensures Ascending(times) && (times != [] ==> times[|times| - 1] <= now)
  {
    assert forall i :: 0 <= i < |times| ==> times[i] == (times + [now])[i];
    assert (times + [now])[|times|] == now;
  }

  /**
   * After a refusal at `now` the next request of that key made at `later` is
   * allowed exactly when the oldest hit has left the window by then.
   */
  lemma AfterRefusal(times: seq<real>, rate: Rate, now: real, later: real)
    requires Ascending(times + [now]) && rate.limit >= 1 && now <= later
    requires VerdictOf(times, rate, now).Refused?
    ensures var oldest := HitsAfter(times + [now], rate)[0];
            VerdictOf(times + [now], rate, later) == Allowed <==> oldest + rate.window as real < later
  {
    assert (times + [now])[..|times|] == times;
    var k := HitsAreRecent(times + [now], rate, now);
    var d := KeptSplit(HitsAfter(times + [now], rate), later - Window(rate));
  }

  /**
   * The hint is the whole seconds until the oldest hit reaches the edge of the
   * window, and one second if there are none.
   */
  lemma HintIs(times: seq<real>, rate: Rate, now: real)
    requires Ascending(times + [now]) && VerdictOf(times, rate, now).Refused?
    ensures var hint := VerdictOf(times, rate, now).retryAfter;
            var left := HitsAfter(times + [now], rate)[0] + rate.window as real - now;
            if left < 1.0 then hint == 1 else hint as real <= left < hint as real + 1.0
  {
    assert (times + [now])[..|times|] == times;
  }

  /** Waiting one second more than the hint always frees a slot. */
  lemma HintPlusOne(times: seq<real>, rate: Rate, now: real, later: real)
    requires Ascending(times + [now]) && rate.limit >= 1
    requires VerdictOf(times, rate, now).Refused?
    requires later >= now + VerdictOf(times, rate, now).retryAfter as real + 1.0
    ensures VerdictOf(times + [now], rate, later) == Allowed
  {
    assert (times + [now])[..|times|] == times;
    AfterRefusal(times, rate, now, later);
  }

  /** Waiting just as long as the hint says frees a slot if and only if the oldest hit had less than a second to go. */
  lemma HintExactly(times: seq<real>, rate: Rate, now: real)
    requires Ascending(times + [now]) && rate.limit >= 1
    requires VerdictOf(times, rate, now).Refused?
    ensures var oldest := HitsAfter(times + [now], rate)[0];
            VerdictOf(times + [now], rate, now + VerdictOf(times, rate, now).retryAfter as real) == Allowed
            <==> oldest + rate.window as real - now < 1.0
  {
    assert (times + [now])[..|times|] == times;
    AfterRefusal(times, rate, now, now + VerdictOf(times, rate, now).retryAfter as real);
  }

  /**
   * The lookup of the oldest hit fails exactly when the limit is zero: then no
   * request is ever allowed, and every one of them ends there.
   */
  lemma BrokenIff(times: seq<real>, rate: Rate, now: real)
    requires Ascending(times + [now])
    ensures VerdictOf(times, rate, now) == Broken <==> rate.limit == 0
  {
    if rate.limit == 0 { NoHits(times, rate); } else { RefusedIff(times, rate, now); }
  }

  lemma {:induction false} NoHits(times: seq<real>, rate: Rate)
    requires rate.limit == 0
    ensures HitsAfter(times, rate) == [] && AllowedOf(times, rate) == []
  {
    if times != [] { NoHits(times[..|times| - 1], rate); }
  }

  /** A rate the parser takes, and a first request it cannot answer. */
  lemma ZeroRate()
    ensures ParseRate("0/hour") == Some(Rate(0, 3600)) && VerdictOf([], Rate(0, 3600), 0.0) == Broken
  {
    RateReads(0, "hour");
    assert Decimal(0) + "/" + "hour" == "0/hour";
  }

  /** One request a minute: refused at second 10 with a hint of 50 seconds, and refused again after 50 seconds. */
  lemma HintTooShort()
    ensures var rate := Rate(1, 60);
            VerdictOf([0.0], rate, 10.0) == Refused(50) && VerdictOf([0.0, 10.0], rate, 60.0).Refused?
  {
    var rate := Rate(1, 60);
    assert [0.0][..0] == [] && HitsAfter([], rate) == [];
    assert HitsAfter([0.0], rate) == [0.0];
    assert [0.0, 10.0][..1] == [0.0];
    assert HitsAfter([0.0, 10.0], rate) == [0.0];
  }
}
