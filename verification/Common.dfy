/** Small definitions shared by every part of the model. */
module Common {

  datatype Option<+T> = None | Some(value: T)

  /** What reading a field gives, if its numbers can be converted at all. */
  datatype Reading<+T> = Read(value: T) | Unreadable

  ghost predicate StrictlyAscending(xs: seq<int>) {
    forall i, j :: 0 <= i < j < |xs| ==> xs[i] < xs[j]
  }

  /** Python's `sorted(set(xs))`: every distinct element once, smallest first. */
  function SortedSet(xs: seq<int>): (r: seq<int>)
    ensures StrictlyAscending(r)
    ensures forall y :: y in r <==> y in xs
  {
    if xs == [] then [] else Insert(xs[0], SortedSet(xs[1..]))
  }

  function Insert(x: int, xs: seq<int>): (r: seq<int>)
    requires StrictlyAscending(xs)
    ensures StrictlyAscending(r)
    ensures forall y :: y in r <==> y == x || y in xs
  {
    if xs == [] || x < xs[0] then [x] + xs
    else if x == xs[0] then xs
    else
      var rest := Insert(x, xs[1..]);
      assert forall y :: y in xs <==> y == xs[0] || y in xs[1..];
      assert forall i :: 0 <= i < |rest| ==> rest[i] in rest;
      [xs[0]] + rest
  }

  /** A strictly ascending list is determined by its members. */
  lemma {:induction false} SortedSetUnique(a: seq<int>, b: seq<int>)
    requires StrictlyAscending(a) && StrictlyAscending(b)
    requires forall y :: y in a <==> y in b
    ensures a == b
  {
    var h := if b == [] then 0 else b[0];
    assert b == [] || h in b;
    if a == [] {
    } else {
      assert a[0] in a;
      assert b[0] in b;
      assert a[0] == b[0];
      forall y ensures y in a[1..] <==> y in b[1..] {
        assert y in a <==> y == a[0] || y in a[1..];
        assert y in b <==> y == b[0] || y in b[1..];
      }
      SortedSetUnique(a[1..], b[1..]);
    }
  }

  function Reverse<T>(xs: seq<T>): seq<T> { if xs == [] then [] else Reverse(xs[1..]) + [xs[0]] }

  lemma {:induction false} ReverseAt<T>(xs: seq<T>)
    ensures |Reverse(xs)| == |xs|
    ensures forall i :: 0 <= i < |xs| ==> Reverse(xs)[i] == xs[|xs| - 1 - i]
    ensures forall i :: 0 <= i < |xs| ==> xs[i] == Reverse(xs)[|xs| - 1 - i]
  {
    if xs != [] { ReverseAt(xs[1..]); }
  }

  lemma ReverseTwice<T>(xs: seq<T>)
    ensures Reverse(Reverse(xs)) == xs
  {
    ReverseAt(xs);
    ReverseAt(Reverse(xs));
  }

  lemma ReverseMembers(xs: seq<int>)
    ensures forall y :: y in Reverse(xs) <==> y in xs
  {
    ReverseAt(xs);
    forall y | y in xs ensures y in Reverse(xs) {
      var i :| 0 <= i < |xs| && xs[i] == y;
      assert Reverse(xs)[|xs| - 1 - i] == y;
    }
  }

  /** The elements of `xs` that satisfy `keep`, in order. */
  function Filter<T(!new)>(xs: seq<T>, keep: T -> bool): (r: seq<T>)
    ensures forall y :: y in r <==> y in xs && keep(y)
  {
    if xs == [] then [] else
      assert forall y :: y in xs <==> y == xs[0] || y in xs[1..];
      (if keep(xs[0]) then [xs[0]] else []) + Filter(xs[1..], keep)
  }

  lemma AtLeast(k: int, d: int)
    requires k >= 1
    ensures d >= 1 ==> k * d >= k
    ensures d <= -1 ==> k * d <= -k
  {
    if d >= 1 { assert k * (d - 1) >= 0; } else if d <= -1 { assert k * (-d - 1) >= 0; }
  }

  /** Quotient and remainder are determined by their defining equation. */
  lemma DivMod(n: int, k: int, q: int, r: int)
    requires k >= 1 && 0 <= r < k && n == k * q + r
    ensures n / k == q && n % k == r
  {
    var q', r' := n / k, n % k;
    assert n == k * q' + r';
    assert k * (q - q') == r' - r;
    AtLeast(k, q - q');
  }

  lemma DivStep(n: nat, k: nat)
    requires n >= 1 && k >= 1
    ensures n / k == (n - 1) / k + (if n % k == 0 then 1 else 0)
  {
    var q, r := (n - 1) / k, (n - 1) % k;
    assert n - 1 == k * q + r;
    if r + 1 < k { DivMod(n, k, q, r + 1); } else { assert k * (q + 1) == k * q + k; DivMod(n, k, q + 1, 0); }
  }

  // ---------------------------------------------------------------- counting elements

  ghost function Elements<T>(xs: seq<T>): set<T> { set x | x in xs }

  lemma {:induction false} DistinctSize<T>(xs: seq<T>)
    requires forall i, j :: 0 <= i < j < |xs| ==> xs[i] != xs[j]
    ensures |Elements(xs)| == |xs|
  {
    if xs != [] {
      DistinctSize(xs[1..]);
      assert Elements(xs) == {xs[0]} + Elements(xs[1..]);
    }
  }

  lemma {:induction false} ElementsSize<T>(xs: seq<T>)
    ensures |Elements(xs)| <= |xs|
  {
    if xs != [] {
      ElementsSize(xs[1..]);
      assert Elements(xs) == {xs[0]} + Elements(xs[1..]);
    }
  }

  lemma {:induction false} SubsetSize<T>(a: set<T>, b: set<T>)
    requires a <= b
    ensures |a| <= |b|
  {
    if a != {} {
      var x :| x in a;
      SubsetSize(a - {x}, b - {x});
    }
  }
}
