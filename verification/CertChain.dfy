/**
  The in-place ordering of a certificate chain (rust/attest/src/cert_chain.rs).

  A certificate is any value; `issued(a, c)` stands for the library call that
  tells whether `a` issued `c`.  Nothing is assumed about that relation.
 */
module CertChain {
  import opened Wrappers

  /** What `sort` leaves behind: success or failure, the slice, and how many
      issuance tests were made. */
  datatype Outcome<C> = Outcome(ok: bool, certs: seq<C>, tests: nat)

  /** The test made on each candidate: issued by `issuer`, or self-issued when
      there is no issuer yet. */
  predicate Hit<C>(issued: (C, C) -> bool, issuer: Option<C>, c: C) {
    match issuer
    case None => issued(c, c)
    case Some(i) => issued(i, c)
  }

  /** The last position of `s[..hi]` that passes the test. */
  function RPosition<C>(issued: (C, C) -> bool, issuer: Option<C>, s: seq<C>, hi: nat): (r: Option<nat>)
    requires hi <= |s|
    ensures r.Some? ==> r.value < hi && Hit(issued, issuer, s[r.value])
    ensures r.Some? ==> forall j :: r.value < j < hi ==> !Hit(issued, issuer, s[j])
    ensures r.None? ==> forall j :: 0 <= j < hi ==> !Hit(issued, issuer, s[j])
  {
    if hi == 0 then None
    else if Hit(issued, issuer, s[hi - 1]) then Some(hi - 1)
    else RPosition(issued, issuer, s, hi - 1)
  }

  function Swapped<C>(s: seq<C>, i: nat, j: nat): (r: seq<C>)
    requires i < |s| && j < |s|
    ensures |r| == |s| && r[i] == s[j] && r[j] == s[i]
    ensures forall k :: 0 <= k < |s| && k != i && k != j ==> r[k] == s[k]
  {
    seq(|s|, k requires 0 <= k < |s| => if k == i then s[j] else if k == j then s[i] else s[k])
  }

  /** The descending loop, from position `curr` on. */
  function SortBelow<C>(issued: (C, C) -> bool, s: seq<C>, curr: nat): (o: Outcome<C>)
    requires curr < |s|
    ensures |o.certs| == |s|
    decreases curr
  {
    if curr == 0 then Outcome(true, s, 0)
    else
      match RPosition(issued, Some(s[curr]), s, curr)
      case None => Outcome(false, s, curr)
      case Some(pos) =>
        var rest := SortBelow(issued, Swapped(s, curr - 1, pos), curr - 1);
        Outcome(rest.ok, rest.certs, rest.tests + (curr - pos))
  }

  function SortResult<C>(issued: (C, C) -> bool, s: seq<C>): (o: Outcome<C>)
    ensures |o.certs| == |s|
  {
    match RPosition(issued, None, s, |s|)
    case None => Outcome(false, s, |s|)
    case Some(pos) =>
      var rest := SortBelow(issued, Swapped(s, |s| - 1, pos), |s| - 1);
      Outcome(rest.ok, rest.certs, rest.tests + (|s| - pos))
  }

  // ---------------------------------------------------------------------
  // The source's own form: an array permuted in place.
  // ---------------------------------------------------------------------

  /** Scans `certs[..hi]` from the end. */
  method FindLast<C>(certs: array<C>, hi: nat, issued: (C, C) -> bool, issuer: Option<C>)
    returns (r: Option<nat>, ghost tests: nat)
    requires hi <= certs.Length
    ensures r == RPosition(issued, issuer, certs[..], hi)
    ensures tests == if r.Some? then hi - r.value else hi
  {
    var i: nat := hi;
    while i > 0
      invariant i <= hi
      invariant RPosition(issued, issuer, certs[..], hi) == RPosition(issued, issuer, certs[..], i)
    {
      i := i - 1;
      if Hit(issued, issuer, certs[i]) {
        return Some(i), hi - i;
      }
    }
    return None, hi;
  }

  /** Exchanges two elements in place. */
  method SwapAt<C>(certs: array<C>, i: nat, j: nat)
    requires i < certs.Length && j < certs.Length
    modifies certs
    ensures certs[..] == Swapped(old(certs[..]), i, j)
  {
    certs[i], certs[j] := certs[j], certs[i];
  }

  /** `done` is what continuing at `curr` gives, after `tests` tests. */
  ghost predicate Remaining<C>(done: Outcome<C>, tests: nat, issued: (C, C) -> bool, s: seq<C>, curr: nat) {
    && curr < |s|
    && var rest := SortBelow(issued, s, curr);
    && done == Outcome(rest.ok, rest.certs, tests + rest.tests)
  }

  /** One round of the loop: brings the certificate issued by the one at `curr`
      next to it. */
  method SortRound<C>(certs: array<C>, curr: nat, issued: (C, C) -> bool, ghost done: Outcome<C>, ghost before: nat)
    returns (found: bool, ghost tests: nat)
    requires 0 < curr && Remaining(done, before, issued, certs[..], curr)
    modifies certs
    ensures found ==> issued(certs[curr], certs[curr - 1])
    ensures !found ==> forall j :: 0 <= j < curr ==> !issued(certs[curr], certs[j])
    ensures forall i :: curr <= i < certs.Length ==> certs[i] == old(certs[i])
    ensures found ==> Remaining(done, tests, issued, certs[..], curr - 1)
    ensures !found ==> certs[..] == old(certs[..]) && done == Outcome(false, certs[..], tests)
  {
    var next, nextTests := FindLast(certs, curr, issued, Some(certs[curr]));
    tests := before + nextTests;
    if next.None? {
      assert forall j :: 0 <= j < curr ==> !Hit(issued, Some(certs[curr]), certs[..][j]);
      return false, tests;
    }
    assert Hit(issued, Some(certs[curr]), certs[next.value]);
    SwapAt(certs, curr - 1, next.value);
    return true, tests;
  }

  /** Brings the last self-issued certificate to the end. */
  method PlaceRoot<C>(certs: array<C>, issued: (C, C) -> bool) returns (found: bool, ghost tests: nat)
    modifies certs
    ensures found ==> 0 < certs.Length && issued(certs[certs.Length - 1], certs[certs.Length - 1])
    ensures found ==> Remaining(SortResult(issued, old(certs[..])), tests, issued, certs[..], certs.Length - 1)
    ensures !found ==> forall j :: 0 <= j < certs.Length ==> !issued(certs[j], certs[j])
    ensures !found ==> certs[..] == old(certs[..])
    ensures !found ==> SortResult(issued, certs[..]) == Outcome(false, certs[..], tests)
  {
    var root;
    root, tests := FindLast(certs, certs.Length, issued, None);
    if root.None? {
      assert forall j :: 0 <= j < certs.Length ==> !Hit(issued, None, certs[..][j]);
      return false, tests;
    }
    assert Hit(issued, None, certs[root.value]);
    SwapAt(certs, certs.Length - 1, root.value);
    return true, tests;
  }

  /** Orders the certificates from leaf to root, or fails. */
  method Sort<C>(certs: array<C>, issued: (C, C) -> bool) returns (ok: bool, ghost tests: nat)
    modifies certs
    ensures Outcome(ok, certs[..], tests) == SortResult(issued, old(certs[..]))
  {
    ghost var done := SortResult(issued, certs[..]);
    ok, tests := PlaceRoot(certs, issued);
    if !ok {
      return;
    }
    var curr: nat := certs.Length - 1;
    while curr > 0
      invariant Remaining(done, tests, issued, certs[..], curr)
    {
      ok, tests := SortRound(certs, curr, issued, done, tests);
      if !ok {
        return;
      }
      curr := curr - 1;
    }
    return true, tests;
  }

  // ---------------------------------------------------------------------
  // Soundness.
  // ---------------------------------------------------------------------

  /** Leaf first, each certificate issued by its successor, the last one
      self-issued. */
  ghost predicate Chain<C>(issued: (C, C) -> bool, t: seq<C>) {
    && 0 < |t|
    && issued(t[|t| - 1], t[|t| - 1])
    && LinkedAbove(issued, t, 0)
  }

  /** Every certificate above position `low` issued its predecessor. */
  ghost predicate LinkedAbove<C>(issued: (C, C) -> bool, t: seq<C>, low: nat) {
    forall i :: low < i < |t| ==> issued(t[i], t[i - 1])
  }

  lemma SwappedPermutes<C>(s: seq<C>, i: nat, j: nat)
    requires i < |s| && j < |s|
    ensures multiset(Swapped(s, i, j)) == multiset(s)
  {
    assert Swapped(s, i, j) == s[i := s[j]][j := s[i]];
  }

  lemma {:induction false} SortBelowPermutes<C>(issued: (C, C) -> bool, s: seq<C>, curr: nat)
    requires curr < |s|
    ensures multiset(SortBelow(issued, s, curr).certs) == multiset(s)
    decreases curr
  {
    if curr > 0 {
      var pos := RPosition(issued, Some(s[curr]), s, curr);
      if pos.Some? {
        SwappedPermutes(s, curr - 1, pos.value);
        SortBelowPermutes(issued, Swapped(s, curr - 1, pos.value), curr - 1);
      }
    }
  }

  /** Positions from `curr` up are settled. */
  lemma {:induction false} SortBelowKeepsTail<C>(issued: (C, C) -> bool, s: seq<C>, curr: nat)
    requires curr < |s|
    ensures forall i :: curr <= i < |s| ==> SortBelow(issued, s, curr).certs[i] == s[i]
    decreases curr
  {
    if curr > 0 {
      var pos := RPosition(issued, Some(s[curr]), s, curr);
      if pos.Some? {
        SortBelowKeepsTail(issued, Swapped(s, curr - 1, pos.value), curr - 1);
      }
    }
  }

  lemma {:induction false} SortBelowLinks<C>(issued: (C, C) -> bool, s: seq<C>, curr: nat)
    requires curr < |s| && LinkedAbove(issued, s, curr)
    requires SortBelow(issued, s, curr).ok
    ensures LinkedAbove(issued, SortBelow(issued, s, curr).certs, 0)
    decreases curr
  {
    if curr > 0 {
      var pos := RPosition(issued, Some(s[curr]), s, curr).value;
      var s' := Swapped(s, curr - 1, pos);
      assert LinkedAbove(issued, s', curr - 1) by {
        forall i | curr - 1 < i < |s'| ensures issued(s'[i], s'[i - 1]) {
          assert i == curr ==> Hit(issued, Some(s[curr]), s[pos]);
        }
      }
      SortBelowLinks(issued, s', curr - 1);
    }
  }

  function Triangle(n: nat): nat {
    if n == 0 then 0 else n + Triangle(n - 1)
  }

  lemma {:induction false} TriangleIs(n: nat)
    ensures 2 * Triangle(n) == n * (n + 1)
  {
    if n > 0 {
      TriangleIs(n - 1);
    }
  }

  lemma {:induction false} SortBelowCost<C>(issued: (C, C) -> bool, s: seq<C>, curr: nat)
    requires curr < |s|
    ensures curr <= SortBelow(issued, s, curr).tests <= Triangle(curr)
    decreases curr
  {
    if curr > 0 {
      var pos := RPosition(issued, Some(s[curr]), s, curr);
      if pos.Some? {
        SortBelowCost(issued, Swapped(s, curr - 1, pos.value), curr - 1);
      }
    }
  }

  lemma SortPermutes<C>(issued: (C, C) -> bool, s: seq<C>)
    ensures multiset(SortResult(issued, s).certs) == multiset(s)
  {
    var pos := RPosition(issued, None, s, |s|);
    if pos.Some? {
      SwappedPermutes(s, |s| - 1, pos.value);
      SortBelowPermutes(issued, Swapped(s, |s| - 1, pos.value), |s| - 1);
    }
  }

  lemma SortLinks<C>(issued: (C, C) -> bool, s: seq<C>)
    requires SortResult(issued, s).ok
    ensures Chain(issued, SortResult(issued, s).certs)
  {
    var pos := RPosition(issued, None, s, |s|).value;
    var s' := Swapped(s, |s| - 1, pos);
    SortBelowKeepsTail(issued, s', |s| - 1);
    SortBelowLinks(issued, s', |s| - 1);
    assert Hit(issued, None, s'[|s| - 1]);
  }

  /** `sort` never loses, invents or duplicates a certificate, whether it
      succeeds or not.  When it succeeds the slice is a complete chain, so a
      missing or an extra link is always rejected. */
  lemma SortSound<C>(issued: (C, C) -> bool, s: seq<C>)
    ensures multiset(SortResult(issued, s).certs) == multiset(s)
    ensures SortResult(issued, s).ok ==> Chain(issued, SortResult(issued, s).certs)
  {
    SortPermutes(issued, s);
    if SortResult(issued, s).ok {
      SortLinks(issued, s);
    }
  }

  lemma {:induction false} SortCostTriangle<C>(issued: (C, C) -> bool, s: seq<C>)
    ensures |s| <= SortResult(issued, s).tests <= Triangle(|s|)
  {
    var pos := RPosition(issued, None, s, |s|);
    if pos.Some? {
      SortBelowCost(issued, Swapped(s, |s| - 1, pos.value), |s| - 1);
    }
  }

  /** Any run, successful or not, makes at least n and at most
      n + n(n-1)/2 = n(n+1)/2 issuance tests. */
  lemma SortCost<C>(issued: (C, C) -> bool, s: seq<C>)
    ensures |s| <= SortResult(issued, s).tests && 2 * SortResult(issued, s).tests <= |s| * (|s| + 1)
  {
    SortCostTriangle(issued, s);
    TriangleIs(|s|);
  }

  // ---------------------------------------------------------------------
  // Ordered input: a fixpoint at linear cost, and only there.
  // ---------------------------------------------------------------------

  lemma SwappedSelf<C>(s: seq<C>, i: nat)
    requires i < |s|
    ensures Swapped(s, i, i) == s
  {
  }

  /** One round of the loop on a neighbour that already fits. */
  lemma {:induction false} SettledStep<C>(issued: (C, C) -> bool, s: seq<C>, curr: nat)
    requires 0 < curr < |s| && issued(s[curr], s[curr - 1])
    ensures var rest := SortBelow(issued, s, curr - 1);
            SortBelow(issued, s, curr) == Outcome(rest.ok, rest.certs, rest.tests + 1)
  {
    assert Hit(issued, Some(s[curr]), s[curr - 1]);
    SwappedSelf(s, curr - 1);
  }

  lemma {:induction false} LinkedIsKept<C>(issued: (C, C) -> bool, s: seq<C>, curr: nat)
    requires curr < |s|
    requires forall i :: 0 < i <= curr ==> issued(s[i], s[i - 1])
    ensures SortBelow(issued, s, curr) == Outcome(true, s, curr)
    decreases curr
  {
    if curr > 0 {
      SettledStep(issued, s, curr);
      LinkedIsKept(issued, s, curr - 1);
    }
  }

  lemma {:induction false} CheapIsLinked<C>(issued: (C, C) -> bool, s: seq<C>, curr: nat)
    requires curr < |s|
    requires SortBelow(issued, s, curr).ok && SortBelow(issued, s, curr).tests == curr
    ensures forall i :: 0 < i <= curr ==> issued(s[i], s[i - 1])
    decreases curr
  {
    if curr > 0 {
      var pos := RPosition(issued, Some(s[curr]), s, curr).value;
      SortBelowCost(issued, Swapped(s, curr - 1, pos), curr - 1);
      assert pos == curr - 1;
      SwappedSelf(s, curr - 1);
      assert Hit(issued, Some(s[curr]), s[curr - 1]);
      CheapIsLinked(issued, s, curr - 1);
    }
  }

  lemma {:induction false} SelfIssuedLast<C>(issued: (C, C) -> bool, s: seq<C>)
    requires 0 < |s| && issued(s[|s| - 1], s[|s| - 1])
    ensures var rest := SortBelow(issued, s, |s| - 1);
            SortResult(issued, s) == Outcome(rest.ok, rest.certs, rest.tests + 1)
  {
    assert Hit(issued, None, s[|s| - 1]);
    SwappedSelf(s, |s| - 1);
  }

  /** A slice is already a chain exactly when `sort` succeeds on it with one
      test per certificate, and then it is left as it was. */
  lemma OrderedIsLinearFixpoint<C>(issued: (C, C) -> bool, s: seq<C>)
    ensures Chain(issued, s) <==>
            SortResult(issued, s).ok && SortResult(issued, s).tests == |s|
    ensures Chain(issued, s) ==> SortResult(issued, s) == Outcome(true, s, |s|)
  {
    if Chain(issued, s) {
      SelfIssuedLast(issued, s);
      LinkedIsKept(issued, s, |s| - 1);
    } else if SortResult(issued, s).ok && SortResult(issued, s).tests == |s| {
      var pos := RPosition(issued, None, s, |s|).value;
      SortBelowCost(issued, Swapped(s, |s| - 1, pos), |s| - 1);
      assert Hit(issued, None, s[|s| - 1]);
      SwappedSelf(s, |s| - 1);
      CheapIsLinked(issued, s, |s| - 1);
      assert false;
    }
  }

  /** Sorting twice is sorting once. */
  lemma SortIdempotent<C>(issued: (C, C) -> bool, s: seq<C>)
    requires SortResult(issued, s).ok
    ensures var t := SortResult(issued, s).certs;
            SortResult(issued, t) == Outcome(true, t, |t|)
  {
    SortSound(issued, s);
    OrderedIsLinearFixpoint(issued, SortResult(issued, s).certs);
  }

  // ---------------------------------------------------------------------
  // Completeness and independence of the input order.
  // ---------------------------------------------------------------------

  /** No certificate but the root is self-issued, and no certificate issues
      one below it other than its neighbour.  Links pointing up the chain are
      unrestricted. */
  ghost predicate Unambiguous<C>(issued: (C, C) -> bool, t: seq<C>) {
    && (forall j :: 0 <= j < |t| && issued(t[j], t[j]) ==> t[j] == t[|t| - 1])
    && (forall i, j :: 0 <= j < i < |t| && issued(t[i], t[j]) ==> t[j] == t[i - 1])
  }

  lemma SameLength<C>(s: seq<C>, t: seq<C>)
    requires multiset(s) == multiset(t)
    ensures |s| == |t|
  {
    assert |s| == |multiset(s)| == |multiset(t)| == |t|;
  }

  lemma MemberOf<C>(s: seq<C>, t: seq<C>, n: nat, i: nat) returns (j: nat)
    requires n <= |s| && n <= |t| && multiset(s[..n]) == multiset(t[..n]) && i < n
    ensures j < n && t[j] == s[i]
  {
    assert s[..n][i] in multiset(s[..n]);
    assert s[i] in t[..n];
    j :| 0 <= j < n && t[..n][j] == s[i];
  }

  lemma DropLast<C>(s: seq<C>, t: seq<C>, n: nat)
    requires n < |s| && n < |t| && s[n] == t[n]
    requires multiset(s[..n + 1]) == multiset(t[..n + 1])
    ensures multiset(s[..n]) == multiset(t[..n])
  {
    assert s[..n + 1] == s[..n] + [s[n]];
    assert t[..n + 1] == t[..n] + [t[n]];
    assert multiset(s[..n]) == multiset(s[..n + 1]) - multiset{s[n]};
  }

  lemma PrefixPermutes<C>(s: seq<C>, n: nat, i: nat, j: nat)
    requires i < n <= |s| && j < n
    ensures multiset(Swapped(s, i, j)[..n]) == multiset(s[..n])
  {
    assert Swapped(s, i, j)[..n] == Swapped(s[..n], i, j);
    SwappedPermutes(s[..n], i, j);
  }

  /** The round at `curr` brings the right certificate into place. */
  lemma CompleteStep<C>(issued: (C, C) -> bool, t: seq<C>, s: seq<C>, curr: nat) returns (pos: nat)
    requires LinkedAbove(issued, t, 0) && Unambiguous(issued, t)
    requires |s| == |t| && 0 < curr < |t|
    requires s[curr] == t[curr] && multiset(s[..curr]) == multiset(t[..curr])
    ensures RPosition(issued, Some(s[curr]), s, curr) == Some(pos)
    ensures pos < curr && s[pos] == t[curr - 1]
    ensures multiset(Swapped(s, curr - 1, pos)[..curr - 1]) == multiset(t[..curr - 1])
  {
    var k := MemberOf(t, s, curr, curr - 1);
    assert Hit(issued, Some(s[curr]), s[k]);
    pos := RPosition(issued, Some(s[curr]), s, curr).value;
    var j := MemberOf(s, t, curr, pos);
    assert issued(t[curr], t[j]);
    PrefixPermutes(s, curr, curr - 1, pos);
    DropLast(Swapped(s, curr - 1, pos), t, curr - 1);
  }

  lemma {:induction false} SortBelowComplete<C>(issued: (C, C) -> bool, t: seq<C>, s: seq<C>, curr: nat)
    requires LinkedAbove(issued, t, 0) && Unambiguous(issued, t)
    requires |s| == |t| && curr < |t|
    requires forall i :: curr <= i < |t| ==> s[i] == t[i]
    requires multiset(s[..curr]) == multiset(t[..curr])
    ensures SortBelow(issued, s, curr).ok && SortBelow(issued, s, curr).certs == t
    decreases curr
  {
    if curr == 0 {
      assert s == t;
    } else {
      var pos := CompleteStep(issued, t, s, curr);
      SortBelowComplete(issued, t, Swapped(s, curr - 1, pos), curr - 1);
    }
  }

  /** The search for the root finds the right certificate. */
  lemma CompleteRoot<C>(issued: (C, C) -> bool, t: seq<C>, s: seq<C>) returns (pos: nat)
    requires Chain(issued, t) && Unambiguous(issued, t)
    requires |s| == |t| && multiset(s[..|t|]) == multiset(t[..|t|])
    ensures RPosition(issued, None, s, |s|) == Some(pos)
    ensures pos < |s| && s[pos] == t[|t| - 1]
  {
    var k := MemberOf(t, s, |t|, |t| - 1);
    assert Hit(issued, None, s[k]);
    pos := RPosition(issued, None, s, |s|).value;
    var j := MemberOf(s, t, |t|, pos);
    assert issued(t[j], t[j]);
  }

  /** Every arrangement of an unambiguous chain is sorted into that chain. */
  lemma SortComplete<C>(issued: (C, C) -> bool, t: seq<C>, s: seq<C>)
    requires Chain(issued, t) && Unambiguous(issued, t)
    requires multiset(s) == multiset(t)
    ensures SortResult(issued, s).ok && SortResult(issued, s).certs == t
  {
    SameLength(s, t);
    var n := |t|;
    assert s[..n] == s && t[..n] == t;
    var pos := CompleteRoot(issued, t, s);
    var s' := Swapped(s, n - 1, pos);
    assert multiset(s'[..n - 1]) == multiset(t[..n - 1]) by {
      PrefixPermutes(s, n, n - 1, pos);
      DropLast(s', t, n - 1);
    }
    SortBelowComplete(issued, t, s', n - 1);
  }

  /** Links already in place down to `low` keep everything from `low` up. */
  lemma {:induction false} SettledAbove<C>(issued: (C, C) -> bool, s: seq<C>, low: nat, curr: nat)
    requires low <= curr < |s|
    requires forall i :: low < i <= curr ==> issued(s[i], s[i - 1])
    ensures SortBelow(issued, s, curr).certs[low] == s[low]
    decreases curr
  {
    if low < curr {
      SettledStep(issued, s, curr);
      SettledAbove(issued, s, low, curr - 1);
    } else {
      SortBelowKeepsTail(issued, s, curr);
    }
  }

  /** Swapping a second self-issued certificate into the last place makes
      `sort` take it for the root. */
  lemma {:induction false} SecondRootWins<C>(issued: (C, C) -> bool, t: seq<C>, j: nat)
    requires j < |t| && issued(t[j], t[j])
    ensures SortResult(issued, Swapped(t, |t| - 1, j)).certs[|t| - 1] == t[j]
  {
    var s := Swapped(t, |t| - 1, j);
    SelfIssuedLast(issued, s);
    SortBelowKeepsTail(issued, s, |s| - 1);
  }

  /** Swapping a second certificate issued by `t[i]` into place `i - 1` makes
      `sort` keep it there. */
  lemma {:induction false} SecondChildWins<C>(issued: (C, C) -> bool, t: seq<C>, i: nat, j: nat)
    requires Chain(issued, t) && j < i < |t| && issued(t[i], t[j])
    ensures SortResult(issued, Swapped(t, i - 1, j)).certs[i - 1] == t[j]
  {
    var s := Swapped(t, i - 1, j);
    SwappedLinks(issued, t, i, j);
    SelfIssuedLast(issued, s);
    SettledAbove(issued, s, i - 1, |s| - 1);
  }

  lemma SwappedLinks<C>(issued: (C, C) -> bool, t: seq<C>, i: nat, j: nat)
    requires Chain(issued, t) && j < i < |t| && issued(t[i], t[j])
    ensures var s := Swapped(t, i - 1, j);
            && s[i - 1] == t[j] && s[|s| - 1] == t[|t| - 1]
            && forall k :: i - 1 < k < |s| ==> issued(s[k], s[k - 1])
  {
    var s := Swapped(t, i - 1, j);
    forall k | i - 1 < k < |s|
      ensures issued(s[k], s[k - 1])
    {
      assert s[k] == t[k];
      assert i < k ==> s[k - 1] == t[k - 1];
    }
  }

  ghost predicate SortsTo<C>(issued: (C, C) -> bool, s: seq<C>, t: seq<C>) {
    SortResult(issued, s).ok && SortResult(issued, s).certs == t
  }

  ghost predicate AlwaysSortsTo<C(!new)>(issued: (C, C) -> bool, t: seq<C>) {
    forall s :: multiset(s) == multiset(t) ==> SortsTo(issued, s, t)
  }

  /** The result is independent of the input order exactly for unambiguous
      chains: every arrangement of `t` is sorted into `t` if and only if `t`
      is a chain without a second root and without a second child. */
  lemma OrderIndependence<C(!new)>(issued: (C, C) -> bool, t: seq<C>)
    ensures AlwaysSortsTo(issued, t) <==> Chain(issued, t) && Unambiguous(issued, t)
  {
    if Chain(issued, t) && Unambiguous(issued, t) {
      forall s | multiset(s) == multiset(t)
        ensures SortsTo(issued, s, t)
      {
        SortComplete(issued, t, s);
      }
    }
    if AlwaysSortsTo(issued, t) {
      OrderIndependenceOnly(issued, t);
    }
  }

  lemma OneRoot<C(!new)>(issued: (C, C) -> bool, t: seq<C>, j: nat)
    requires AlwaysSortsTo(issued, t) && j < |t| && issued(t[j], t[j])
    ensures t[j] == t[|t| - 1]
  {
    SwappedPermutes(t, |t| - 1, j);
    assert SortsTo(issued, Swapped(t, |t| - 1, j), t);
    SecondRootWins(issued, t, j);
  }

  lemma OneChild<C(!new)>(issued: (C, C) -> bool, t: seq<C>, i: nat, j: nat)
    requires AlwaysSortsTo(issued, t) && Chain(issued, t)
    requires j < i < |t| && issued(t[i], t[j])
    ensures t[j] == t[i - 1]
  {
    SwappedPermutes(t, i - 1, j);
    assert SortsTo(issued, Swapped(t, i - 1, j), t);
    SecondChildWins(issued, t, i, j);
  }

  lemma OrderIndependenceOnly<C(!new)>(issued: (C, C) -> bool, t: seq<C>)
    requires AlwaysSortsTo(issued, t)
    ensures Chain(issued, t) && Unambiguous(issued, t)
  {
    assert SortsTo(issued, t, t);
    SortSound(issued, t);
    forall j | 0 <= j < |t| && issued(t[j], t[j])
      ensures t[j] == t[|t| - 1]
    {
      OneRoot(issued, t, j);
    }
    forall i, j | 0 <= j < i < |t| && issued(t[i], t[j])
      ensures t[j] == t[i - 1]
    {
      OneChild(issued, t, i, j);
    }
  }

  // ---------------------------------------------------------------------
  // When every arrangement is accepted.
  // ---------------------------------------------------------------------

  /** The certificates from position `k` up are linked and end in a root. */
  ghost predicate ChainFrom<C>(issued: (C, C) -> bool, s: seq<C>, k: nat) {
    0 < |s| && issued(s[|s| - 1], s[|s| - 1]) && LinkedAbove(issued, s, k)
  }

  ghost predicate IssuedOneBelow<C>(issued: (C, C) -> bool, s: seq<C>, k: nat)
    requires k < |s|
  {
    exists j :: 0 <= j < k && issued(s[k], s[j])
  }

  /** There is a self-issued certificate, and no chain grown from one gets stuck:
      while certificates are left over, its lowest one issued one of them. */
  ghost predicate NoDeadEnd<C(!new)>(issued: (C, C) -> bool, t: seq<C>) {
    && (exists i :: 0 <= i < |t| && issued(t[i], t[i]))
    && (forall s, k: nat :: multiset(s) == multiset(t) && 0 < k < |s| && ChainFrom(issued, s, k)
          ==> IssuedOneBelow(issued, s, k))
  }

  ghost predicate AlwaysAccepted<C(!new)>(issued: (C, C) -> bool, t: seq<C>) {
    forall s :: multiset(s) == multiset(t) ==> SortResult(issued, s).ok
  }

  /** A round that does not get stuck. */
  lemma AcceptsStep<C>(issued: (C, C) -> bool, s: seq<C>, curr: nat) returns (pos: nat)
    requires 0 < curr < |s| && ChainFrom(issued, s, curr) && IssuedOneBelow(issued, s, curr)
    ensures RPosition(issued, Some(s[curr]), s, curr) == Some(pos) && pos < curr
    ensures ChainFrom(issued, Swapped(s, curr - 1, pos), curr - 1)
    ensures multiset(Swapped(s, curr - 1, pos)) == multiset(s)
  {
    var j :| 0 <= j < curr && issued(s[curr], s[j]);
    assert Hit(issued, Some(s[curr]), s[j]);
    pos := RPosition(issued, Some(s[curr]), s, curr).value;
    SwappedPermutes(s, curr - 1, pos);
    ChainGrows(issued, s, curr, pos);
  }

  lemma {:induction false} SortBelowAccepts<C(!new)>(issued: (C, C) -> bool, t: seq<C>, s: seq<C>, curr: nat)
    requires NoDeadEnd(issued, t) && multiset(s) == multiset(t)
    requires curr < |s| && ChainFrom(issued, s, curr)
    ensures SortBelow(issued, s, curr).ok
    decreases curr
  {
    if curr > 0 {
      assert IssuedOneBelow(issued, s, curr);
      var pos := AcceptsStep(issued, s, curr);
      SortBelowAccepts(issued, t, Swapped(s, curr - 1, pos), curr - 1);
    }
  }

  lemma ChainGrows<C>(issued: (C, C) -> bool, s: seq<C>, curr: nat, pos: nat)
    requires pos < curr < |s| && ChainFrom(issued, s, curr) && Hit(issued, Some(s[curr]), s[pos])
    ensures ChainFrom(issued, Swapped(s, curr - 1, pos), curr - 1)
  {
    var s' := Swapped(s, curr - 1, pos);
    forall i | curr - 1 < i < |s'| ensures issued(s'[i], s'[i - 1]) {
      assert i == curr ==> s'[i - 1] == s[pos];
    }
  }

  lemma RootIsFound<C>(issued: (C, C) -> bool, t: seq<C>, s: seq<C>, i: nat) returns (pos: nat)
    requires multiset(s) == multiset(t) && i < |t| && issued(t[i], t[i])
    ensures RPosition(issued, None, s, |s|) == Some(pos) && pos < |s|
    ensures ChainFrom(issued, Swapped(s, |s| - 1, pos), |s| - 1)
    ensures multiset(Swapped(s, |s| - 1, pos)) == multiset(t)
  {
    SameLength(s, t);
    assert s[..|t|] == s && t[..|t|] == t;
    var k := MemberOf(t, s, |t|, i);
    assert Hit(issued, None, s[k]);
    pos := RPosition(issued, None, s, |s|).value;
    assert Hit(issued, None, s[pos]);
    SwappedPermutes(s, |s| - 1, pos);
  }

  lemma SortAccepts<C(!new)>(issued: (C, C) -> bool, t: seq<C>, s: seq<C>)
    requires NoDeadEnd(issued, t) && multiset(s) == multiset(t)
    ensures SortResult(issued, s).ok
  {
    var i :| 0 <= i < |t| && issued(t[i], t[i]);
    var pos := RootIsFound(issued, t, s, i);
    SortBelowAccepts(issued, t, Swapped(s, |s| - 1, pos), |s| - 1);
  }

  lemma {:induction false} AcceptedBelow<C>(issued: (C, C) -> bool, s: seq<C>, k: nat, curr: nat)
    requires k <= curr < |s| && LinkedAbove(issued, s, k) && SortBelow(issued, s, curr).ok
    ensures SortBelow(issued, s, k).ok
    decreases curr
  {
    if k < curr {
      SettledStep(issued, s, curr);
      AcceptedBelow(issued, s, k, curr - 1);
    }
  }

  /** A chain that `sort` completes has issued a certificate further down. */
  lemma AcceptedIsNotStuck<C>(issued: (C, C) -> bool, s: seq<C>, k: nat)
    requires 0 < k < |s| && ChainFrom(issued, s, k) && SortResult(issued, s).ok
    ensures IssuedOneBelow(issued, s, k)
  {
    SelfIssuedLast(issued, s);
    AcceptedBelow(issued, s, k, |s| - 1);
    var pos := RPosition(issued, Some(s[k]), s, k).value;
    assert Hit(issued, Some(s[k]), s[pos]);
  }

  /** `sort` succeeds on every arrangement of `t` if and only if `t` holds a
      self-issued certificate and no chain grown from one gets stuck. */
  lemma AcceptedFromEveryOrder<C(!new)>(issued: (C, C) -> bool, t: seq<C>)
    ensures AlwaysAccepted(issued, t) <==> NoDeadEnd(issued, t)
  {
    if NoDeadEnd(issued, t) {
      forall s | multiset(s) == multiset(t) ensures SortResult(issued, s).ok {
        SortAccepts(issued, t, s);
      }
    }
    if AlwaysAccepted(issued, t) {
      AcceptedHasRoot(issued, t);
      forall s, k: nat | multiset(s) == multiset(t) && 0 < k < |s| && ChainFrom(issued, s, k)
        ensures IssuedOneBelow(issued, s, k)
      {
        AcceptedIsNotStuck(issued, s, k);
      }
    }
  }

  lemma AcceptedHasRoot<C>(issued: (C, C) -> bool, t: seq<C>)
    requires SortResult(issued, t).ok
    ensures exists i :: 0 <= i < |t| && issued(t[i], t[i])
  {
    var pos := RPosition(issued, None, t, |t|).value;
    assert Hit(issued, None, t[pos]);
  }

  /** A certificate issuing two others makes the outcome depend on the order:
      root 2 issued both 1 and 0, and 1 issued 0.  The chain [0, 1, 2] is
      found from one arrangement and missed from another. */
  lemma AmbiguousOrderMatters(issued: (int, int) -> bool)
    requires forall a, c :: issued(a, c) <==> a == 2 || (a == 1 && c == 0)
    ensures Chain(issued, [0, 1, 2])
    ensures SortResult(issued, [0, 1, 2]).ok
    ensures !SortResult(issued, [1, 0, 2]).ok
  {
    OrderedIsLinearFixpoint(issued, [0, 1, 2]);
    var s := [1, 0, 2];
    SelfIssuedLast(issued, s);
    SettledStep(issued, s, 2);
    var pos := RPosition(issued, Some(s[1]), s, 1);
    assert pos.None?;
  }

  /** Acceptance asks for less than a result that does not depend on the order:
      where everyone issued everyone, every arrangement of two certificates is
      accepted, yet they are not an unambiguous chain. */
  lemma AcceptedThoughAmbiguous(issued: (int, int) -> bool)
    requires forall a, c :: issued(a, c)
    ensures AlwaysAccepted(issued, [0, 1]) && Chain(issued, [0, 1]) && !Unambiguous(issued, [0, 1])
  {
    var t := [0, 1];
    assert issued(t[0], t[0]);
    forall s, k: nat | multiset(s) == multiset(t) && 0 < k < |s| && ChainFrom(issued, s, k)
      ensures IssuedOneBelow(issued, s, k)
    {
      assert issued(s[k], s[0]);
    }
    AcceptedFromEveryOrder(issued, t);
  }

  // ---------------------------------------------------------------------
  // CertChain::new.
  // ---------------------------------------------------------------------

  /** Builds a chain from certificates in any order: a complete chain of
      exactly the given certificates or nothing, and never nothing when they
      make up an unambiguous chain. */
  method NewChain<C(!new)>(input: seq<C>, issued: (C, C) -> bool) returns (r: Option<seq<C>>)
    ensures r == if SortResult(issued, input).ok then Some(SortResult(issued, input).certs) else None
    ensures r.Some? ==> Chain(issued, r.value) && multiset(r.value) == multiset(input)
    ensures forall t :: Chain(issued, t) && Unambiguous(issued, t) && multiset(t) == multiset(input)
              ==> r == Some(t)
  {
    if |input| == 0 {
      forall t | multiset(t) == multiset(input) ensures |t| == 0 {
        SameLength(t, input);
      }
      return None;
    }
    var certs := new C[|input|](i requires 0 <= i < |input| => input[i]);
    assert certs[..] == input;
    var ok, _ := Sort(certs, issued);
    SortSound(issued, input);
    forall t | Chain(issued, t) && Unambiguous(issued, t) && multiset(t) == multiset(input)
      ensures ok && certs[..] == t
    {
      SortComplete(issued, t, input);
    }
    return if ok then Some(certs[..]) else None;
  }
}
