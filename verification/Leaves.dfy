/** Picking the end-entity certificate of a bundle, on the server and in the browser. */
module Leaves {
  import opened Common
  import opened Pem

  /** A parsed certificate; names are DER bytes. */
  datatype Certificate = Certificate(subject: seq<Byte>, issuer: seq<Byte>, expiry: int, der: seq<Byte>)

  predicate SelfIssued(c: Certificate) { c.subject == c.issuer }

  datatype Choice = Leaf(cert: Certificate) | Ambiguous(choices: seq<Certificate>) | EmptyBundle

  // ---------------------------------------------------------------- on the server

  /** Names that some other certificate of the bundle says issued it. */
  function Issuers(certs: seq<Certificate>): set<seq<Byte>> {
    set c | c in certs && !SelfIssued(c) :: c.issuer
  }

  function LeavesOf(certs: seq<Certificate>): seq<Certificate> {
    var issuers := Issuers(certs);
    Filter(certs, (c: Certificate) => c.subject !in issuers)
  }

  /** A self-signed root nothing chains to gives way to a genuine end entity. */
  function Candidates(certs: seq<Certificate>): seq<Certificate> {
    var leaves := LeavesOf(certs);
    var genuine := Filter(leaves, c => !SelfIssued(c));
    if genuine != [] then genuine else leaves
  }

  /** The first of those that expire soonest. */
  function Earliest(certs: seq<Certificate>): (c: Certificate)
    requires certs != []
    ensures exists i :: 0 <= i < |certs| && certs[i] == c && (forall j :: 0 <= j < i ==> c.expiry < certs[j].expiry)
                        && forall j :: i <= j < |certs| ==> c.expiry <= certs[j].expiry
  {
    if |certs| == 1 then certs[0]
    else
      var rest := Earliest(certs[1..]);
      assert exists i :: 0 <= i < |certs| - 1 && certs[1..][i] == rest && certs[i + 1] == rest;
      assert forall j :: 1 <= j < |certs| ==> certs[j] == certs[1..][j - 1];
      if certs[0].expiry <= rest.expiry then certs[0] else rest
  }

  function SelectLeaf(certs: seq<Certificate>): Choice {
    if |certs| == 1 then Leaf(certs[0])
    else
      var leaves := Candidates(certs);
      if |leaves| == 1 then Leaf(leaves[0])
      else if leaves == [] then (if certs == [] then EmptyBundle else Leaf(Earliest(certs)))
      else Ambiguous(leaves)
  }

  // ---------------------------------------------------------------- in the browser

  function SubjectKey(c: Certificate): string { Btoa(c.subject) }

  function IssuerKey(c: Certificate): string { Btoa(c.issuer) }

  function IssuerKeys(certs: seq<Certificate>): set<string> {
    set c | c in certs && SubjectKey(c) != IssuerKey(c) :: IssuerKey(c)
  }

  /** The candidates the page offers; names are compared by their base64 text. */
  function SelectLeaves(certs: seq<Certificate>): seq<Certificate> {
    if |certs| <= 1 then certs
    else
      var issuers := IssuerKeys(certs);
      var leaves := Filter(certs, (c: Certificate) => SubjectKey(c) !in issuers);
      var nonSelfSigned := Filter(leaves, c => SubjectKey(c) != IssuerKey(c));
      if |nonSelfSigned| > 0 then nonSelfSigned
      else if |leaves| > 0 then leaves else certs
  }

  lemma {:induction false} FilterSame(certs: seq<Certificate>, p: Certificate -> bool, q: Certificate -> bool)
    requires forall c :: c in certs ==> p(c) == q(c)
    ensures Filter(certs, p) == Filter(certs, q)
  {
    if certs != [] {
      assert certs[0] in certs;
      assert forall c :: c in certs[1..] ==> c in certs;
      FilterSame(certs[1..], p, q);
    }
  }

  lemma KeysCompareNames(a: Certificate, b: Certificate)
    ensures SubjectKey(a) == IssuerKey(b) <==> a.subject == b.issuer
  {
    if SubjectKey(a) == IssuerKey(b) { BtoaInjective(a.subject, b.issuer); }
  }

  lemma SameIssuers(certs: seq<Certificate>, c: Certificate)
    ensures SubjectKey(c) in IssuerKeys(certs) <==> c.subject in Issuers(certs)
  {
    forall d | d in certs
      ensures (SubjectKey(c) == IssuerKey(d) <==> c.subject == d.issuer)
          && (SubjectKey(d) != IssuerKey(d) <==> !SelfIssued(d))
    {
      KeysCompareNames(c, d);
      KeysCompareNames(d, d);
    }
    if c.subject in Issuers(certs) {
      var d :| d in certs && !SelfIssued(d) && d.issuer == c.subject;
      assert IssuerKey(d) in IssuerKeys(certs);
    }
    if SubjectKey(c) in IssuerKeys(certs) {
      var d :| d in certs && SubjectKey(d) != IssuerKey(d) && IssuerKey(d) == SubjectKey(c);
      assert d.issuer in Issuers(certs);
    }
  }

  /**
   * The two implementations agree on every bundle of two or more: the page
   * offers exactly the server's candidates, unless there are none, when it
   * offers the whole bundle and the server takes the one expiring soonest.
   */
  lemma BrowserAgrees(certs: seq<Certificate>)
    requires |certs| >= 2
    ensures if Candidates(certs) != [] then
              && SelectLeaves(certs) == Candidates(certs)
              && SelectLeaf(certs) == (
                  if |SelectLeaves(certs)| == 1 then Leaf(SelectLeaves(certs)[0]) else Ambiguous(SelectLeaves(certs)))
            else SelectLeaves(certs) == certs && SelectLeaf(certs) == Leaf(Earliest(certs))
  {
    var issuers, keys := Issuers(certs), IssuerKeys(certs);
    forall c ensures SubjectKey(c) in keys <==> c.subject in issuers { SameIssuers(certs, c); }
    forall c: Certificate ensures SubjectKey(c) != IssuerKey(c) <==> !SelfIssued(c) { KeysCompareNames(c, c); }
    FilterSame(certs, (c: Certificate) => SubjectKey(c) !in keys, (c: Certificate) => c.subject !in issuers);
    FilterSame(LeavesOf(certs), c => SubjectKey(c) != IssuerKey(c), c => !SelfIssued(c));
  }

  /** A file of one certificate is offered as it is, the server's choice too; only an empty file offers nothing. */
  lemma PageOffers(certs: seq<Certificate>)
    ensures |certs| == 1 ==> SelectLeaves(certs) == [certs[0]] && SelectLeaf(certs) == Leaf(certs[0])
    ensures SelectLeaves(certs) == [] <==> certs == []
    ensures certs == [] ==> SelectLeaf(certs) == EmptyBundle
  {
    if |certs| >= 2 { BrowserAgrees(certs); }
  }

  /** This certificate's subject is the issuer of some certificate that is not its own issuer. */
  predicate IssuesAnother(certs: seq<Certificate>, c: Certificate) {
    exists d :: d in certs && d.subject != d.issuer && d.issuer == c.subject
  }

  function Genuine(certs: seq<Certificate>): seq<Certificate> {
    Filter(certs, (c: Certificate) => !IssuesAnother(certs, c) && c.subject != c.issuer)
  }

  function LoneRoots(certs: seq<Certificate>): seq<Certificate> {
    Filter(certs, (c: Certificate) => !IssuesAnother(certs, c) && c.subject == c.issuer)
  }

  /**
   * The candidates, in the order of the file: the certificates that issue no
   * other and are issued by somebody else, if there are any; otherwise the
   * self-issued ones that issue no other.
   */
  lemma CandidatesAre(certs: seq<Certificate>)
    ensures Candidates(certs) == if Genuine(certs) != [] then Genuine(certs) else LoneRoots(certs)
  {
    GenuineLeaves(certs);
    if Genuine(certs) == [] { RootLeaves(certs); }
  }

  lemma GenuineLeaves(certs: seq<Certificate>)
    ensures Genuine(certs) == Filter(LeavesOf(certs), c => !SelfIssued(c))
  {
    var issuers := Issuers(certs);
    FilterTwice(certs, (c: Certificate) => c.subject !in issuers, c => !SelfIssued(c),
                (c: Certificate) => !IssuesAnother(certs, c) && c.subject != c.issuer);
  }

  lemma RootLeaves(certs: seq<Certificate>)
    requires Genuine(certs) == []
    ensures LeavesOf(certs) == LoneRoots(certs)
  {
    var issuers := Issuers(certs);
    forall c | c in certs && c.subject !in issuers ensures c.subject == c.issuer { assert c !in Genuine(certs); }
    FilterSame(certs, (c: Certificate) => c.subject !in issuers,
               (c: Certificate) => !IssuesAnother(certs, c) && c.subject == c.issuer);
  }

  lemma {:induction false} FilterTwice(certs: seq<Certificate>, p: Certificate -> bool, q: Certificate -> bool,
                                       r: Certificate -> bool)
    requires forall c :: c in certs ==> (r(c) <==> p(c) && q(c))
    ensures Filter(Filter(certs, p), q) == Filter(certs, r)
  {
    if certs != [] {
      assert certs[0] in certs && forall c :: c in certs[1..] ==> c in certs;
      FilterTwice(certs[1..], p, q, r);
      var rest := Filter(certs[1..], p);
      if p(certs[0]) { assert ([certs[0]] + rest)[1..] == rest; } else { assert [] + rest == rest; }
    }
  }

  // ---------------------------------------------------------------- no leaf only if there is a cycle

  /** Certificates of the bundle, none self-issued, each issued by the one before and the first by the last. */
  ghost predicate IssuerCycle(certs: seq<Certificate>, cycle: seq<Certificate>) {
    && cycle != []
    && (forall i :: 0 <= i < |cycle| ==> cycle[i] in certs && !SelfIssued(cycle[i]))
    && (forall i :: 0 < i < |cycle| ==> cycle[i].issuer == cycle[i - 1].subject)
    && cycle[0].issuer == cycle[|cycle| - 1].subject
  }

  ghost predicate Walk(certs: seq<Certificate>, walk: seq<Certificate>) {
    && (forall i :: 0 <= i < |walk| ==> walk[i] in certs && !SelfIssued(walk[i]))
    && (forall i :: 0 < i < |walk| ==> walk[i].issuer == walk[i - 1].subject)
  }

  /** With no leaf in the bundle one can walk from issuer to issued for ever. */
  lemma {:induction false} LongWalk(certs: seq<Certificate>, n: nat) returns (walk: seq<Certificate>)
    requires certs != [] && LeavesOf(certs) == []
    ensures Walk(certs, walk) && |walk| == n + 1
  {
    if n == 0 {
      var d := IssuedBy(certs, certs[0]);
      walk := [d];
    } else {
      var before := LongWalk(certs, n - 1);
      var d := IssuedBy(certs, before[n - 1]);
      walk := before + [d];
      WalkOn(certs, before, d);
    }
  }

  lemma WalkOn(certs: seq<Certificate>, walk: seq<Certificate>, d: Certificate)
    requires Walk(certs, walk) && walk != []
    requires d in certs && !SelfIssued(d) && d.issuer == walk[|walk| - 1].subject
    ensures Walk(certs, walk + [d])
  {
  }

  /** A closed stretch of a walk is a cycle. */
  lemma WalkCloses(certs: seq<Certificate>, walk: seq<Certificate>, i: nat, j: nat)
    requires Walk(certs, walk) && i < j < |walk| && walk[i] == walk[j]
    ensures IssuerCycle(certs, walk[i + 1..j + 1])
  {
    var cycle := walk[i + 1..j + 1];
    assert forall k :: 0 <= k < |cycle| ==> cycle[k] == walk[i + 1 + k];
    assert walk[i + 1].issuer == walk[i].subject;
  }

  lemma IssuedBy(certs: seq<Certificate>, c: Certificate) returns (d: Certificate)
    requires c in certs && LeavesOf(certs) == []
    ensures d in certs && !SelfIssued(d) && d.issuer == c.subject
  {
    var issuers := Issuers(certs);
    assert c !in LeavesOf(certs);
    assert c.subject in issuers;
    d :| d in certs && !SelfIssued(d) && d.issuer == c.subject;
  }

  /** More steps than certificates: the walk meets one of them twice. */
  lemma Repeats(certs: seq<Certificate>, walk: seq<Certificate>) returns (i: nat, j: nat)
    requires |walk| > |certs| && forall k :: 0 <= k < |walk| ==> walk[k] in certs
    ensures i < j < |walk| && walk[i] == walk[j]
  {
    if forall a, b :: 0 <= a < b < |walk| ==> walk[a] != walk[b] {
      DistinctSize(walk);
      ElementsSize(certs);
      assert Elements(walk) <= Elements(certs);
      SubsetSize(Elements(walk), Elements(certs));
      assert false;
    }
    i, j :| 0 <= i < j < |walk| && walk[i] == walk[j];
  }

  /**
   * A bundle without a leaf contains a real issuer cycle, so the
   * expires-soonest fallback is reached only then.
   */
  lemma NoLeafMeansCycle(certs: seq<Certificate>) returns (cycle: seq<Certificate>)
    requires certs != [] && Candidates(certs) == []
    ensures IssuerCycle(certs, cycle)
  {
    assert LeavesOf(certs) == [];
    var walk := LongWalk(certs, |certs|);
    var i, j := Repeats(certs, walk);
    cycle := walk[i + 1..j + 1];
    WalkCloses(certs, walk, i, j);
  }

  // ---------------------------------------------------------------- chains

  /** End entity first, each certified by the next; the last is a self-signed root, or its issuer is not included. */
  ghost predicate Chain(chain: seq<Certificate>) {
    && chain != []
    && (forall i, j :: 0 <= i < j < |chain| ==> chain[i].subject != chain[j].subject)
    && (forall i :: 0 <= i < |chain| - 1 ==> chain[i].issuer == chain[i + 1].subject)
    && var top := chain[|chain| - 1];
       SelfIssued(top) || forall i :: 0 <= i < |chain| ==> chain[i].subject != top.issuer
  }

  /** The same certificates in any order. */
  ghost predicate Shuffled(bundle: seq<Certificate>, chain: seq<Certificate>) {
    && (forall i, j :: 0 <= i < j < |bundle| ==> bundle[i] != bundle[j])
    && (forall c :: c in bundle <==> c in chain)
  }

  lemma {:induction false} FilterOne(certs: seq<Certificate>, p: Certificate -> bool, x: Certificate)
    requires x in certs && forall c :: c in certs ==> (p(c) <==> c == x)
    requires forall i, j :: 0 <= i < j < |certs| ==> certs[i] != certs[j]
    ensures Filter(certs, p) == [x]
  {
    assert certs[0] in certs;
    assert forall c :: c in certs <==> c == certs[0] || c in certs[1..];
    if certs[0] == x {
      forall c | c in certs[1..] ensures !p(c) {
        var k :| 0 <= k < |certs[1..]| && certs[1..][k] == c;
        assert certs[k + 1] == c;
      }
      FilterNone(certs[1..], p);
    } else {
      FilterOne(certs[1..], p, x);
    }
  }

  lemma FilterNone(certs: seq<Certificate>, p: Certificate -> bool)
    requires forall c :: c in certs ==> !p(c)
    ensures Filter(certs, p) == []
  {
    if Filter(certs, p) != [] { assert Filter(certs, p)[0] in Filter(certs, p); }
  }

  /** Only the end entity of a chain issues nothing in it. */
  lemma ChainIssuers(chain: seq<Certificate>, bundle: seq<Certificate>, c: Certificate)
    requires Chain(chain) && |chain| >= 2 && Shuffled(bundle, chain) && c in chain
    ensures c.subject !in Issuers(bundle) <==> c == chain[0]
    ensures !SelfIssued(chain[0])
  {
    var n := |chain| - 1;
    assert chain[0].issuer == chain[1].subject;
    forall m | 0 <= m < n ensures chain[m].issuer != chain[0].subject {
      assert chain[m].issuer == chain[m + 1].subject;
    }
    var i :| 0 <= i <= n && chain[i] == c;
    if i > 0 {
      assert chain[i - 1] in bundle by { assert chain[i - 1] in chain; }
      assert chain[i - 1].issuer == c.subject;
      assert !SelfIssued(chain[i - 1]);
    } else {
      forall d | d in bundle && !SelfIssued(d) ensures d.issuer != c.subject {
        var k :| 0 <= k <= n && chain[k] == d;
      }
    }
  }

  /**
   * For a chain of any length with distinct subjects, with or without its root
   * and in any order, the end entity is chosen.
   */
  lemma ChainLeaf(chain: seq<Certificate>, bundle: seq<Certificate>)
    requires Chain(chain) && Shuffled(bundle, chain)
    ensures SelectLeaf(bundle) == Leaf(chain[0])
  {
    var leaf := chain[0];
    assert leaf in bundle by { assert leaf in chain; }
    if |chain| == 1 {
      assert bundle == [leaf] by {
        DistinctSize(bundle);
        assert Elements(bundle) == {leaf};
      }
    } else {
      var issuers := Issuers(bundle);
      forall c | c in bundle ensures c.subject !in issuers <==> c == leaf { ChainIssuers(chain, bundle, c); }
      ChainIssuers(chain, bundle, leaf);
      FilterOne(bundle, (c: Certificate) => c.subject !in issuers, leaf);
      assert LeavesOf(bundle) == [leaf];
      FilterOne([leaf], c => !SelfIssued(c), leaf);
    }
  }
}
