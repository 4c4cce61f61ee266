/** Repeating GET-NEXT: a walk visits every OID after its start once, in order.  The MIB may
    be another one in every round, since setters, getters and other managers act between
    rounds; ms(k) is the MIB in round k. */
module Walk {
  import opened Octets
  import opened Packet
  import opened Mib
  import opened Processing

  /** The OID in a column after n rounds of feeding each answer back in. */
  ghost function WalkTo(ms: nat -> Mib, o: Oid, n: nat): Oid {
    if n == 0 then o else NextBind(ms(n - 1), WalkTo(ms, o, n - 1)).oid
  }

  ghost function Visited(ms: nat -> Mib, o: Oid, n: nat): set<Oid> {
    set i | 1 <= i <= n :: WalkTo(ms, o, i)
  }

  lemma WalkStart(ms: nat -> Mib, o: Oid)
    ensures Visited(ms, o, 0) == {} && WalkTo(ms, o, 0) == o
  {
  }

  lemma WalkStep(ms: nat -> Mib, o: Oid, n: nat)
    requires n > 0
    ensures
      var at, next := WalkTo(ms, o, n - 1), Next(ms(n - 1).oids, WalkTo(ms, o, n - 1));
      && WalkTo(ms, o, n) == (if next.Some? then next.value else at)
      && (next.Some? ==> Less(at, WalkTo(ms, o, n)))
      && Visited(ms, o, n) == Visited(ms, o, n - 1) + {WalkTo(ms, o, n)}
  {
    forall x | x in Visited(ms, o, n - 1) + {WalkTo(ms, o, n)}
      ensures x in Visited(ms, o, n)
    {
      if x != WalkTo(ms, o, n) {
        var i :| 1 <= i <= n - 1 && x == WalkTo(ms, o, i);
      }
    }
  }

  // ------------------------------------------------------------ a MIB that changes

  /** A walk never goes back. */
  lemma {:induction false} WalkForward(ms: nat -> Mib, o: Oid, i: nat, j: nat)
    requires i <= j
    ensures WalkTo(ms, o, i) == WalkTo(ms, o, j) || Less(WalkTo(ms, o, i), WalkTo(ms, o, j))
  {
    hide Less, Visited, WalkTo;
    if i < j {
      WalkForward(ms, o, i, j - 1);
      WalkStep(ms, o, j);
      if WalkTo(ms, o, i) != WalkTo(ms, o, j - 1) && WalkTo(ms, o, j - 1) != WalkTo(ms, o, j) {
        LessTransitive(WalkTo(ms, o, i), WalkTo(ms, o, j - 1), WalkTo(ms, o, j));
      }
    }
  }

  /** k is in the MIB in each of the first n rounds. */
  predicate Stays(ms: nat -> Mib, k: Oid, n: nat) {
    forall i: nat :: i < n ==> k in ms(i).oids
  }

  /** However the MIB changes, no OID that stays in it is missed: after any number of rounds
      it has either been visited or is still ahead. */
  lemma {:induction false} NoneMissed(ms: nat -> Mib, o: Oid, n: nat, k: Oid)
    requires Less(o, k) && Stays(ms, k, n)
    ensures k in Visited(ms, o, n) <==> !Less(WalkTo(ms, o, n), k)
  {
    hide Less, WalkTo;
    if k in Visited(ms, o, n) {
      var i :| 1 <= i <= n && k == WalkTo(ms, o, i);
      WalkForward(ms, o, i, n);
      NotBoth(k, WalkTo(ms, o, n));
    } else if n > 0 {
      WalkStep(ms, o, n);
      NoneMissed(ms, o, n - 1, k);
    } else {
      WalkStart(ms, o);
    }
  }

  lemma NotBoth(a: Oid, b: Oid)
    requires Less(a, b) || a == b
    ensures !Less(b, a)
  {
    LessIrreflexive(a);
    if Less(a, b) && Less(b, a) {
      LessTransitive(a, b, a);
    }
  }

  function Between(u: set<Oid>, o: Oid, k: Oid): set<Oid> {
    set x | x in u && Less(o, x) && (x == k || Less(x, k))
  }

  /** Such an OID is reached in no more rounds than OIDs have been up to it, whenever they
      came and went: u holds them all. */
  lemma {:induction false} ReachedInTime(ms: nat -> Mib, u: set<Oid>, o: Oid, n: nat, k: Oid)
    requires forall i: nat :: i < n ==> ms(i).oids <= u
    requires Less(o, k) && k in u && Stays(ms, k, n)
    ensures k in Visited(ms, o, n) || |Between(u, WalkTo(ms, o, n), k)| + n <= |Between(u, o, k)|
    ensures n >= |Between(u, o, k)| ==> k in Visited(ms, o, n)
  {
    hide Less, WalkTo, Visited;
    NoneMissed(ms, o, n, k);
    if n == 0 {
      WalkStart(ms, o);
    } else if k !in Visited(ms, o, n) {
      ReachedInTime(ms, u, o, n - 1, k);
      WalkStep(ms, o, n);
      var at, next := WalkTo(ms, o, n - 1), WalkTo(ms, o, n);
      NoneMissed(ms, o, n - 1, k);
      assert k in After(ms(n - 1).oids, at);
      NextExists(ms(n - 1).oids, at);
      LessIrreflexive(next);
      forall x | Less(next, x)
        ensures Less(at, x)
      {
        LessTransitive(at, next, x);
      }
      assert Between(u, next, k) <= Between(u, at, k) - {next};
      Smaller(Between(u, next, k), Between(u, at, k) - {next});
    }
    assert k !in Visited(ms, o, n) ==> k in Between(u, WalkTo(ms, o, n), k);
  }

  lemma {:induction false} Smaller(a: set<Oid>, b: set<Oid>)
    requires a <= b
    ensures |a| <= |b|
    decreases a
  {
    if x :| x in a {
      Smaller(a - {x}, b - {x});
    }
  }

  // ------------------------------------------------------------ the same OIDs throughout

  /** The values may change between rounds, the OIDs do not. */
  ghost predicate Steady(ms: nat -> Mib, oids: set<Oid>) {
    forall k: nat :: ms(k).oids == oids
  }

  /** The values have no influence on where a walk goes. */
  lemma {:induction false} ValuesDoNotSteer(ms: nat -> Mib, ns: nat -> Mib, o: Oid, n: nat)
    requires forall k: nat :: k < n ==> ms(k).oids == ns(k).oids
    ensures WalkTo(ms, o, n) == WalkTo(ns, o, n)
  {
    if n > 0 {
      ValuesDoNotSteer(ms, ns, o, n - 1);
      WalkStep(ms, o, n);
      WalkStep(ns, o, n);
    }
  }

  /** After n rounds, the OIDs ahead of the start are the n visited and those still ahead. */
  lemma {:induction false} WalkProgress(ms: nat -> Mib, oids: set<Oid>, o: Oid, n: nat)
    requires Steady(ms, oids) && n <= |After(oids, o)|
    ensures After(oids, o) == Visited(ms, o, n) + After(oids, WalkTo(ms, o, n))
    ensures |After(oids, WalkTo(ms, o, n))| == |After(oids, o)| - n
    ensures n > 0 ==>
      && Next(oids, WalkTo(ms, o, n - 1)) == Some(WalkTo(ms, o, n))
      && Less(WalkTo(ms, o, n - 1), WalkTo(ms, o, n))
  {
    hide After, Less, Visited, WalkTo;
    if n > 0 {
      WalkProgress(ms, oids, o, n - 1);
      var at := WalkTo(ms, o, n - 1);
      assert ms(n - 1).oids == oids;
      NextExists(oids, at);
      NextConsumesOne(oids, at);
      WalkStep(ms, o, n);
    } else {
      WalkStart(ms, o);
    }
  }

  lemma {:induction false} WalkIncreases(ms: nat -> Mib, oids: set<Oid>, o: Oid, i: nat, j: nat)
    requires Steady(ms, oids) && i < j <= |After(oids, o)|
    ensures Less(WalkTo(ms, o, i), WalkTo(ms, o, j))
  {
    hide Less, WalkTo;
    WalkProgress(ms, oids, o, j);
    WalkForward(ms, o, i, j - 1);
    if WalkTo(ms, o, i) != WalkTo(ms, o, j - 1) {
      LessTransitive(WalkTo(ms, o, i), WalkTo(ms, o, j - 1), WalkTo(ms, o, j));
    }
  }

  lemma {:induction false} WalkStops(ms: nat -> Mib, oids: set<Oid>, o: Oid, n: nat)
    requires Steady(ms, oids) && n >= |After(oids, o)|
    ensures WalkTo(ms, o, n) == WalkTo(ms, o, |After(oids, o)|)
    ensures NextBind(ms(n), WalkTo(ms, o, n)) == NullBind(WalkTo(ms, o, |After(oids, o)|))
  {
    hide After, Less, WalkTo, Visited;
    var total := |After(oids, o)|;
    assert ms(n).oids == oids;
    WalkProgress(ms, oids, o, total);
    NextExists(oids, WalkTo(ms, o, total));
    if n > total {
      WalkStops(ms, oids, o, n - 1);
      WalkStep(ms, o, n);
      assert ms(n - 1).oids == oids;
    }
  }

  /** A walk of one column: as many rounds as there are OIDs ahead return exactly those, in
      strictly increasing order, each with the value it has in that round; every later
      round repeats the last OID with NULL. */
  lemma WalkVisitsAll(ms: nat -> Mib, oids: set<Oid>, o: Oid)
    requires Steady(ms, oids)
    ensures
      var total := |After(oids, o)|;
      && Visited(ms, o, total) == After(oids, o)
      && (forall i: nat, j: nat :: i < j <= total ==> Less(WalkTo(ms, o, i), WalkTo(ms, o, j)))
      && (forall n: nat :: n < total ==> NextBind(ms(n), WalkTo(ms, o, n)) == Found(ms(n), WalkTo(ms, o, n + 1)))
      && (forall n: nat :: n >= total ==> NextBind(ms(n), WalkTo(ms, o, n)) == NullBind(WalkTo(ms, o, total)))
  {
    var total := |After(oids, o)|;
    WalkProgress(ms, oids, o, total);
    forall i: nat, j: nat | i < j <= total
      ensures Less(WalkTo(ms, o, i), WalkTo(ms, o, j))
    {
      WalkIncreases(ms, oids, o, i, j);
    }
    forall n: nat | n < total
      ensures NextBind(ms(n), WalkTo(ms, o, n)) == Found(ms(n), WalkTo(ms, o, n + 1))
    {
      WalkProgress(ms, oids, o, n + 1);
    }
    forall n: nat | n >= total
      ensures NextBind(ms(n), WalkTo(ms, o, n)) == NullBind(WalkTo(ms, o, total))
    {
      WalkStops(ms, oids, o, n);
    }
  }

  // ------------------------------------------------------------ subtrees

  /** The OIDs below a root. */
  function Below(oids: set<Oid>, root: Oid): set<Oid> {
    set k | k in oids && root <= k && k != root
  }

  lemma VisitedSize(ms: nat -> Mib, oids: set<Oid>, o: Oid, n: nat)
    requires Steady(ms, oids) && n <= |After(oids, o)|
    ensures |Visited(ms, o, n)| == n
  {
    hide WalkTo;
    WalkProgress(ms, oids, o, n);
    var ahead := After(oids, WalkTo(ms, o, n));
    forall k | k in Visited(ms, o, n)
      ensures k !in ahead
    {
      var i :| 1 <= i <= n && k == WalkTo(ms, o, i);
      WalkForward(ms, o, i, n);
      NotBoth(k, WalkTo(ms, o, n));
    }
    assert Visited(ms, o, n) !! ahead;
  }

  /** A walk from the root of a subtree returns that subtree first: as many rounds as it has
      OIDs return exactly those, and no later round returns one of them again. */
  lemma SubtreeFirst(ms: nat -> Mib, oids: set<Oid>, root: Oid)
    requires Steady(ms, oids)
    ensures
      var n := |Below(oids, root)|;
      && n <= |After(oids, root)|
      && Visited(ms, root, n) == Below(oids, root)
      && forall i: nat :: n < i <= |After(oids, root)| ==> !(root <= WalkTo(ms, root, i))
  {
    hide WalkTo, Visited, Less;
    var below, after := Below(oids, root), After(oids, root);
    var n := |below|;
    BelowAfter(oids, root);
    Smaller(below, after);
    VisitedSize(ms, oids, root, n);
    WalkProgress(ms, oids, root, n);
    var at := WalkTo(ms, root, n);
    if s :| s in below && s !in Visited(ms, root, n) {
      NotYet(ms, oids, root, n, s);
      Smaller(Visited(ms, root, n), below - {s});
      assert false;
    }
    Fills(below, Visited(ms, root, n));
    forall i: nat | n < i <= |after|
      ensures !(root <= WalkTo(ms, root, i))
    {
      VisitedSize(ms, oids, root, i);
      LaterOutside(ms, oids, root, n, i);
    }
  }

  lemma BelowAfter(oids: set<Oid>, root: Oid)
    ensures Below(oids, root) == set k | k in After(oids, root) && root <= k
  {
    LessIrreflexive(root);
    forall k | k in Below(oids, root)
      ensures Less(root, k)
    {
      OctetDecides(root, 0, k[|root|..], 0, []);
      assert k == root + k[|root|..];
    }
  }

  // What has been visited before an OID of the subtree belongs to the subtree.
  lemma NotYet(ms: nat -> Mib, oids: set<Oid>, root: Oid, n: nat, s: Oid)
    requires Steady(ms, oids) && n <= |After(oids, root)|
    requires s in Below(oids, root) && s !in Visited(ms, root, n)
    ensures Visited(ms, root, n) <= Below(oids, root) - {s}
  {
    hide WalkTo, Less;
    BelowAfter(oids, root);
    WalkProgress(ms, oids, root, n);
    var at := WalkTo(ms, root, n);
    assert Less(at, s);
    forall k | k in Visited(ms, root, n)
      ensures root <= k
    {
      var i :| 1 <= i <= n && k == WalkTo(ms, root, i);
      WalkForward(ms, root, i, n);
      if !(root <= k) {
        SubtreeTogether(root, s, k);
        if k != at {
          LessTransitive(s, k, at);
        }
        NotBoth(s, at);
      }
    }
  }

  lemma Fills(a: set<Oid>, b: set<Oid>)
    requires a <= b && |a| == |b|
    ensures a == b
  {
    if x :| x in b && x !in a {
      Smaller(a, b - {x});
    }
  }

  lemma LaterOutside(ms: nat -> Mib, oids: set<Oid>, root: Oid, n: nat, i: nat)
    requires Steady(ms, oids) && n < i <= |After(oids, root)|
    requires Visited(ms, root, n) == Below(oids, root)
    ensures !(root <= WalkTo(ms, root, i))
  {
    hide WalkTo, Less;
    BelowAfter(oids, root);
    var k := WalkTo(ms, root, i);
    WalkProgress(ms, oids, root, i);
    assert k in Visited(ms, root, i);
    if root <= k {
      assert k in After(oids, root);
      assert k in Visited(ms, root, n);
      var j :| 1 <= j <= n && k == WalkTo(ms, root, j);
      WalkIncreases(ms, oids, root, j, i);
      LessIrreflexive(k);
    }
  }

  // ------------------------------------------------------------ columns

  /** The bindings after n rounds of sending back what came. */
  ghost function Polled(ms: nat -> Mib, vs: seq<VarBind>, n: nat): seq<VarBind> {
    if n == 0 then vs else NextBinds(ms(n - 1), Polled(ms, vs, n - 1))
  }

  /** The columns of a request walk side by side, none affecting another. */
  lemma {:induction false} ColumnsIndependent(ms: nat -> Mib, vs: seq<VarBind>, n: nat)
    ensures |Polled(ms, vs, n)| == |vs|
    ensures forall i :: 0 <= i < |vs| ==> Polled(ms, vs, n)[i].oid == WalkTo(ms, vs[i].oid, n)
    ensures n > 0 ==>
      forall i :: 0 <= i < |vs| ==> Polled(ms, vs, n)[i] == NextBind(ms(n - 1), WalkTo(ms, vs[i].oid, n - 1))
  {
    if n > 0 {
      ColumnsIndependent(ms, vs, n - 1);
    }
  }
}
