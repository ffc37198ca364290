/** The bounded memory of sessions whose sign-in is already on record. */
module SignIns {
  import opened Common

  /** The list without `id`. */
  function Without(ids: seq<string>, id: string): (r: seq<string>)
    ensures id !in r && forall x :: x in r <==> x in ids && x != id
    ensures NoRepeats(ids) ==> NoRepeats(r)
  {
    if ids == [] then []
    else
      assert forall x :: x in ids <==> x == ids[0] || x in ids[1..];
      var rest := Without(ids[1..], id);
      assert forall i :: 0 <= i < |rest| ==> rest[i] in rest;
      if ids[0] == id then rest else [ids[0]] + rest
  }

  ghost predicate NoRepeats(ids: seq<string>) {
    forall i, j :: 0 <= i < j < |ids| ==> ids[i] != ids[j]
  }

  function LastN(ids: seq<string>, n: nat): seq<string> { if |ids| <= n then ids else ids[|ids| - n..] }

  /** One question: the memory afterwards and the answer. */
  function Ask(seen: seq<string>, id: string, capacity: nat): (seq<string>, bool) {
    if id == "" then (seen, false)
    else if id in seen then (Without(seen, id) + [id], false)
    else (LastN(seen + [id], capacity), true)
  }

  class SignInRecorder {
    /** Session ids in the order they were last used, oldest first. */
    var seen: seq<string>
    const capacity: nat

    constructor (capacity: nat)
      ensures seen == [] && this.capacity == capacity
    {
      seen := [];
      this.capacity := capacity;
    }

    /** True the first time a session is met; either way it becomes the most recently used. */
    method IsNew(id: string) returns (unseen: bool)
      modifies this
      ensures (seen, unseen) == Ask(old(seen), id, capacity)
    {
      if id == "" {
        return false;
      }
      if id in seen {
        seen := Without(seen, id) + [id];
        return false;
      }
      seen := seen + [id];
      ghost var all := seen;
      while |seen| > capacity
        invariant |seen| <= |all| && seen == all[|all| - |seen|..]
        invariant |seen| >= capacity || seen == all
        decreases |seen|
      {
        seen := seen[1..];
      }
      return true;
    }
  }

  // ---------------------------------------------------------------- the unbounded reference

  /** Every distinct session so far, in the order of last use. */
  function Recent(history: seq<string>): (r: seq<string>)
    ensures NoRepeats(r)
  {
    if history == [] then []
    else
      var before, id := Recent(history[..|history| - 1]), history[|history| - 1];
      if id == "" then before else Without(before, id) + [id]
  }

  function Memory(history: seq<string>, capacity: nat): seq<string> {
    if history == [] then [] else Ask(Memory(history[..|history| - 1], capacity), history[|history| - 1], capacity).0
  }

  lemma {:induction false} WithoutSplit(a: seq<string>, b: seq<string>, id: string)
    ensures Without(a + b, id) == Without(a, id) + Without(b, id)
  {
    if a == [] {
      assert a + b == b;
    } else {
      assert (a + b)[1..] == a[1..] + b;
      WithoutSplit(a[1..], b, id);
    }
  }

  lemma {:induction false} WithoutAbsent(ids: seq<string>, id: string)
    requires id !in ids
    ensures Without(ids, id) == ids
  {
    if ids != [] {
      assert ids[0] in ids;
      assert forall x :: x in ids[1..] ==> x in ids;
      WithoutAbsent(ids[1..], id);
    }
  }

  lemma {:induction false} WithoutPresent(ids: seq<string>, id: string)
    requires NoRepeats(ids) && id in ids
    ensures |Without(ids, id)| == |ids| - 1
  {
    if ids[0] == id {
      forall x | x in ids[1..] ensures x != id {
        var k :| 0 <= k < |ids[1..]| && ids[1..][k] == x;
        assert ids[k + 1] == x;
      }
      WithoutAbsent(ids[1..], id);
    } else {
      WithoutPresent(ids[1..], id);
    }
  }

  /** The memory is always the most recent `capacity` of the distinct sessions, in last-use order. */
  lemma {:induction false} MemoryIsRecent(history: seq<string>, capacity: nat)
    ensures Memory(history, capacity) == LastN(Recent(history), capacity)
  {
    if history != [] {
      var before, id := history[..|history| - 1], history[|history| - 1];
      MemoryIsRecent(before, capacity);
      if id != "" { Touch(Recent(before), id, capacity); }
    }
  }

  lemma Touch(recent: seq<string>, id: string, capacity: nat)
    requires NoRepeats(recent) && id != ""
    ensures Ask(LastN(recent, capacity), id, capacity).0 == LastN(Without(recent, id) + [id], capacity)
  {
    var dropped, kept := Parts(recent, capacity);
    if id in kept {
      AbsentBefore(dropped, kept, id);
      TouchKept(dropped, kept, id, capacity);
    } else {
      TouchNew(dropped, kept, id, capacity);
    }
  }

  lemma Parts(ids: seq<string>, n: nat) returns (dropped: seq<string>, kept: seq<string>)
    ensures ids == dropped + kept && kept == LastN(ids, n)
    ensures |kept| == n || (dropped == [] && |kept| <= n)
  {
    kept := LastN(ids, n);
    dropped := ids[..|ids| - |kept|];
  }

  lemma AbsentBefore(a: seq<string>, b: seq<string>, id: string)
    requires NoRepeats(a + b) && id in b
    ensures id !in a && NoRepeats(b)
  {
    var j :| 0 <= j < |b| && b[j] == id;
    assert (a + b)[|a| + j] == id;
    assert forall i :: 0 <= i < |a| ==> (a + b)[i] == a[i];
    assert forall i :: 0 <= i < |b| ==> (a + b)[|a| + i] == b[i];
  }

  lemma TouchKept(dropped: seq<string>, kept: seq<string>, id: string, n: nat)
    requires |kept| == n || (dropped == [] && |kept| <= n)
    requires id in kept && id !in dropped && NoRepeats(kept)
    ensures LastN(Without(dropped + kept, id) + [id], n) == Without(kept, id) + [id]
  {
    WithoutSplit(dropped, kept, id);
    WithoutAbsent(dropped, id);
    WithoutPresent(kept, id);
    assert Without(dropped + kept, id) + [id] == dropped + (Without(kept, id) + [id]);
    LastNTail(dropped, Without(kept, id) + [id], n);
  }

  lemma TouchNew(dropped: seq<string>, kept: seq<string>, id: string, n: nat)
    requires |kept| == n || (dropped == [] && |kept| <= n)
    requires id !in kept
    ensures LastN(Without(dropped + kept, id) + [id], n) == LastN(kept + [id], n)
  {
    WithoutSplit(dropped, kept, id);
    WithoutAbsent(kept, id);
    assert Without(dropped + kept, id) + [id] == Without(dropped, id) + (kept + [id]);
    LastNTail(Without(dropped, id), kept + [id], n);
  }

  /** Enough of the tail decides the last `n`. */
  lemma LastNTail(a: seq<string>, b: seq<string>, n: nat)
    requires |b| >= n || a == []
    ensures LastN(a + b, n) == LastN(b, n)
  {
    assert (a + b)[|a|..] == b;
  }

  // ---------------------------------------------------------------- exactness

  /** The distinct other sessions since `id` was last used. */
  function Since(history: seq<string>, id: string): set<string> {
    if history == [] || history[|history| - 1] == id then {}
    else Since(history[..|history| - 1], id) + (if history[|history| - 1] == "" then {} else {history[|history| - 1]})
  }

  /** In last-use order, what follows a session is what was used since. */
  lemma {:induction false} AfterInRecent(history: seq<string>, id: string) returns (k: nat)
    requires id != "" && id in history
    ensures k < |Recent(history)| && Recent(history)[k] == id
    ensures Since(history, id) == Elements(Recent(history)[k + 1..])
  {
    var n := |history| - 1;
    var before, last := history[..n], history[n];
    if last == id {
      k := |Recent(history)| - 1;
      assert Recent(history)[k + 1..] == [];
    } else {
      assert id in before;
      var j := AfterInRecent(before, id);
      var r := Recent(before);
      if last == "" {
        k := j;
      } else {
        assert r == r[..j] + ([id] + r[j + 1..]);
        k := WithoutAfter(r[..j], id, r[j + 1..], last);
      }
    }
  }

  lemma WithoutAfter(a: seq<string>, id: string, b: seq<string>, last: string) returns (k: nat)
    requires id != last
    ensures var r := Without(a + ([id] + b), last) + [last];
            k < |r| && r[k] == id && Elements(r[k + 1..]) == Elements(b) + {last}
  {
    WithoutSplit(a, [id] + b, last);
    WithoutSplit([id], b, last);
    assert Without([id], last) == [id];
    k := |Without(a, last)|;
    var r := Without(a, last) + ([id] + Without(b, last)) + [last];
    assert r[k + 1..] == Without(b, last) + [last];
  }

  lemma {:induction false} RecentMembers(history: seq<string>)
    ensures forall id :: id in Recent(history) <==> id != "" && id in history
  {
    if history != [] {
      RecentMembers(history[..|history| - 1]);
      assert forall id :: id in history <==> id in history[..|history| - 1] || id == history[|history| - 1];
    }
  }

  /**
   * A session is answered "not new" exactly when it was seen before and fewer
   * than `capacity` distinct other sessions have been used since.
   */
  lemma Exact(history: seq<string>, id: string, capacity: nat)
    requires id != ""
    ensures !Ask(Memory(history, capacity), id, capacity).1 <==> id in history && |Since(history, id)| < capacity
  {
    MemoryIsRecent(history, capacity);
    RecentMembers(history);
    var recent := Recent(history);
    if id in history {
      var k := AfterInRecent(history, id);
      PlaceInLastN(recent, k, capacity);
      DistinctSize(recent[k + 1..]);
    } else {
      assert forall x :: x in LastN(recent, capacity) ==> x in recent;
    }
  }

  lemma PlaceInLastN(ids: seq<string>, k: nat, n: nat)
    requires NoRepeats(ids) && k < |ids|
    ensures ids[k] in LastN(ids, n) <==> |ids[k + 1..]| < n
    ensures NoRepeats(ids[k + 1..])
  {
    var cut := if |ids| <= n then 0 else |ids| - n;
    assert LastN(ids, n) == ids[cut..];
    if k >= cut { assert ids[cut..][k - cut] == ids[k]; }
    if ids[k] in ids[cut..] {
      var j :| 0 <= j < |ids| - cut && ids[cut..][j] == ids[k];
      assert ids[cut + j] == ids[k];
    }
  }

  /** While at most `capacity` distinct sessions have been used, the memory answers as an unbounded one would. */
  lemma AgreesWithUnbounded(history: seq<string>, id: string, capacity: nat)
    requires id != "" && |Elements(history) - {""}| <= capacity
    ensures Ask(Memory(history, capacity), id, capacity).1 <==> id !in history
  {
    Exact(history, id, capacity);
    if id in history {
      SinceInHistory(history, id);
      var all := Elements(history) - {""};
      assert Since(history, id) <= all - {id};
      SubsetSize(Since(history, id), all - {id});
    }
  }

  lemma {:induction false} SinceInHistory(history: seq<string>, id: string)
    ensures forall x :: x in Since(history, id) ==> x in history && x != id && x != ""
  {
    if history != [] && history[|history| - 1] != id {
      SinceInHistory(history[..|history| - 1], id);
      assert forall x :: x in history[..|history| - 1] ==> x in history;
    }
  }
}
